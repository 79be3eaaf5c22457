/** Laws of the admission document: order of the input is irrelevant, and no link is lost or doubled. */
module AdmissionLaws {
  import opened Text
  import opened StableSort
  import opened Admission

  // ------------------------------------------------------ order of the input

  /** The same request, its sources, bindings and profiles listed in another order. */
  ghost predicate Reordered(a: Request, b: Request, p: seq<Profile>, q: seq<Profile>) {
    && b == a.(sources := b.sources, bindings := b.bindings)
    && multiset(a.sources) == multiset(b.sources)
    && multiset(a.bindings) == multiset(b.bindings)
    && multiset(p) == multiset(q)
  }

  ghost predicate SameMembers<T(!new)>(a: seq<T>, b: seq<T>) {
    forall x :: x in a <==> x in b
  }

  lemma MultisetMembers<T(!new)>(a: seq<T>, b: seq<T>)
    requires multiset(a) == multiset(b)
    ensures SameMembers(a, b) && |a| == |b|
  {
    forall x
      ensures x in a <==> x in b
    {
      InMultiset(a, b, x);
    }
    assert |a| == |multiset(a)| && |b| == |multiset(b)|;
  }

  lemma WithRoleIgnoresOrder(a: seq<Source>, b: seq<Source>, role: Role)
    requires SameMembers(a, b) && DistinctGroups(a, SourceRole)
    ensures WithRole(a, role) == WithRole(b, role)
  {
    var x, y := WithRole(a, role), WithRole(b, role);
    if x.Some? {
      assert x.value in b;
      OneOfGroup(a, SourceRole, x.value, y.value);
    }
  }

  lemma WithProfileIdIgnoresOrder(p: seq<Profile>, q: seq<Profile>, id: string)
    requires SameMembers(p, q) && DistinctGroups(p, ProfileId)
    ensures WithProfileId(p, id) == WithProfileId(q, id)
  {
    var x, y := WithProfileId(p, id), WithProfileId(q, id);
    if x.Some? {
      assert x.value in q;
      OneOfGroup(p, ProfileId, x.value, y.value);
    }
  }

  lemma SourcesClosedIgnoresOrder(a: seq<Source>, b: seq<Source>, outside: Outside)
    requires multiset(a) == multiset(b) && SourcesClosed(a, outside)
    ensures SourcesClosed(b, outside)
  {
    MultisetMembers(a, b);
    DistinctIgnoresOrder(a, b, SourceRole);
    DistinctIgnoresOrder(a, b, SourceId);
    forall i | 0 <= i < |EXPECTED|
      ensures HasSource(b, EXPECTED[i].0, EXPECTED[i].1)
    {
      assert HasSource(a, EXPECTED[i].0, EXPECTED[i].1);
    }
  }

  lemma ProfilesClosedIgnoresOrder(p: seq<Profile>, q: seq<Profile>)
    requires multiset(p) == multiset(q) && ProfilesClosed(p)
    ensures ProfilesClosed(q)
  {
    MultisetMembers(p, q);
    DistinctIgnoresOrder(p, q, ProfileId);
    DistinctIgnoresOrder(p, q, TargetName);
  }

  lemma BindingsLinkIgnoresOrder(x: seq<Binding>, y: seq<Binding>, a: seq<Source>, b: seq<Source>, anchor: Source)
    requires multiset(x) == multiset(y) && SameMembers(a, b) && BindingsLink(x, a, anchor)
    ensures BindingsLink(y, b, anchor)
  {
    MultisetMembers(x, y);
    DistinctIgnoresOrder(x, y, BindingId);
    DistinctIgnoresOrder(x, y, BindingKey);
    forall l | l in y
      ensures BindingFits(l) && Links(l, b, anchor)
    {
      assert l in x && Links(l, a, anchor);
      var s :| s in a && s.id == l.sourceId && s.role != SysmlModel && l.symbolId in s.symbols;
      assert s in b;
    }
  }

  lemma SelectedIgnoresOrder(a: Request, b: Request, p: seq<Profile>, q: seq<Profile>, target: Target)
    requires Reordered(a, b, p, q) && ProfilesClosed(p)
    ensures ProfileSelected(a, p, target) <==> ProfileSelected(b, q, target)
    ensures WithProfileId(p, ChosenProfile(a, target)) == WithProfileId(q, ChosenProfile(b, target))
  {
    MultisetMembers(p, q);
    WithProfileIdIgnoresOrder(p, q, ChosenProfile(a, target));
  }

  /** A reordered admissible request is admissible. */
  lemma AdmissibleIgnoresOrder(a: Request, b: Request, p: seq<Profile>, q: seq<Profile>, outside: Outside)
    requires Reordered(a, b, p, q) && Admissible(a, p, outside)
    ensures Admissible(b, q, outside)
  {
    MultisetMembers(a.sources, b.sources);
    SourcesClosedIgnoresOrder(a.sources, b.sources, outside);
    ProfilesClosedIgnoresOrder(p, q);
    WithRoleIgnoresOrder(a.sources, b.sources, Brief);
    WithRoleIgnoresOrder(a.sources, b.sources, SysmlModel);
    BindingsLinkIgnoresOrder(a.bindings, b.bindings, a.sources, b.sources, WithRole(a.sources, SysmlModel).value);
    SelectedIgnoresOrder(a, b, p, q, ToBuild123d);
    SelectedIgnoresOrder(a, b, p, q, ToModelica);
    SelectedIgnoresOrder(a, b, p, q, ToCalculix);
  }

  // ---------------------------------------------------- parts of one source

  /** Everything a source contributes carries the id of the source. */
  ghost predicate OwnParts<T(!new)>(sources: seq<Source>, part: Source -> seq<T>, group: T -> string) {
    forall s, x :: s in sources && x in part(s) ==> group(x) == s.id
  }

  lemma FilterPart<T(!new)>(part: seq<T>, id: string, group: T -> string, key: string)
    requires forall x :: x in part ==> group(x) == id
    ensures Filter(part, InGroup(group, key)) == if id == key then part else []
  {
    forall i | 0 <= i < |part|
      ensures group(part[i]) == id
    {
      assert part[i] in part;
    }
    if id == key {
      FilterEverything(part, InGroup(group, key));
    } else {
      FilterNone(part, group, key);
    }
  }

  lemma LastIsNew(sources: seq<Source>, s: Source)
    requires DistinctGroups(sources, SourceId) && sources != [] && s in sources[..|sources| - 1]
    ensures s in sources && s.id != sources[|sources| - 1].id
  {
    DistinctInit(sources, SourceId);
    assert SourceId(s) != SourceId(sources[|sources| - 1]);
  }

  /** The part that one source contributes; nothing if no source has that id. */
  function PartWithId<T>(sources: seq<Source>, part: Source -> seq<T>, key: string): seq<T> {
    if sources == [] then []
    else if sources[|sources| - 1].id == key then part(sources[|sources| - 1])
    else PartWithId(sources[..|sources| - 1], part, key)
  }

  lemma {:induction false} PartOf<T>(sources: seq<Source>, part: Source -> seq<T>, key: string)
    requires DistinctGroups(sources, SourceId)
    ensures forall s :: s in sources && s.id == key ==> PartWithId(sources, part, key) == part(s)
    ensures (forall s :: s in sources ==> s.id != key) ==> PartWithId(sources, part, key) == []
  {
    if sources != [] {
      var init, last := sources[..|sources| - 1], sources[|sources| - 1];
      DistinctInit(sources, SourceId);
      PartOf(init, part, key);
      assert last in sources;
      forall s | s in init
        ensures s in sources && s.id != last.id
      {
        LastIsNew(sources, s);
      }
    }
  }

  lemma {:induction false} FilterGather<T(!new)>(sources: seq<Source>, part: Source -> seq<T>, group: T -> string, key: string)
    requires DistinctGroups(sources, SourceId) && OwnParts(sources, part, group)
    ensures Filter(Gather(sources, part), InGroup(group, key)) == PartWithId(sources, part, key)
  {
    if sources != [] {
      var init, last := sources[..|sources| - 1], sources[|sources| - 1];
      DistinctInit(sources, SourceId);
      FilterGather(init, part, group, key);
      FilterAppend(Gather(init, part), part(last), InGroup(group, key));
      assert last in sources;
      FilterPart(part(last), last.id, group, key);
      if last.id == key {
        forall s | s in init
          ensures s.id != key
        {
          LastIsNew(sources, s);
        }
        PartOf(init, part, key);
      }
    }
  }

  lemma GatherIgnoresOrder<T(!new)>(a: seq<Source>, b: seq<Source>, f: Source -> seq<T>, g: Source -> seq<T>, group: T -> string)
    requires SameMembers(a, b) && DistinctGroups(a, SourceId) && DistinctGroups(b, SourceId)
    requires OwnParts(a, f, group) && OwnParts(b, g, group) && forall s :: s in a ==> f(s) == g(s)
    ensures SameGroups(Gather(a, f), Gather(b, g), group)
  {
    forall key
      ensures Filter(Gather(a, f), InGroup(group, key)) == Filter(Gather(b, g), InGroup(group, key))
    {
      FilterGather(a, f, group, key);
      FilterGather(b, g, group, key);
      PartOf(a, f, key);
      PartOf(b, g, key);
      if s :| s in a && s.id == key {
        assert s in b;
      }
    }
  }

  lemma {:induction false} MissingSymbolsMembers(sourceId: string, symbols: seq<string>, x: seq<Binding>, y: seq<Binding>)
    requires SameMembers(x, y)
    ensures MissingSymbols(sourceId, symbols, x) == MissingSymbols(sourceId, symbols, y)
    ensures forall d :: d in MissingSymbols(sourceId, symbols, x) ==> d.sourceId == sourceId
  {
    if symbols != [] {
      MissingSymbolsMembers(sourceId, symbols[1..], x, y);
      assert IsBound(x, sourceId, symbols[0]) <==> IsBound(y, sourceId, symbols[0]);
    }
  }

  lemma DiagnosticsIgnoreOrder(a: Request, b: Request)
    requires SameMembers(a.sources, b.sources) && SameMembers(a.bindings, b.bindings)
    requires DistinctGroups(a.sources, SourceId) && DistinctGroups(b.sources, SourceId)
    ensures SameGroups(AllDiagnostics(a), AllDiagnostics(b), DiagnosticSource)
  {
    var f, g := MissingIn(a.bindings), MissingIn(b.bindings);
    forall s: Source
      ensures f(s) == g(s) && forall d :: d in f(s) ==> d.sourceId == s.id
    {
      MissingSymbolsMembers(s.id, s.symbols, a.bindings, b.bindings);
    }
    GatherIgnoresOrder(a.sources, b.sources, f, g, DiagnosticSource);
    GatherIgnoresOrder(a.sources, b.sources, UnresolvedIn, UnresolvedIn, DiagnosticSource);
    forall key
      ensures Filter(AllDiagnostics(a), InGroup(DiagnosticSource, key)) == Filter(AllDiagnostics(b), InGroup(DiagnosticSource, key))
    {
      var p := InGroup(DiagnosticSource, key);
      FilterAppend(Gather(a.sources, f), Gather(a.sources, UnresolvedIn), p);
      FilterAppend(Gather(b.sources, g), Gather(b.sources, UnresolvedIn), p);
      assert Filter(Gather(a.sources, f), p) == Filter(Gather(b.sources, g), p);
      assert Filter(Gather(a.sources, UnresolvedIn), p) == Filter(Gather(b.sources, UnresolvedIn), p);
    }
  }

  lemma ProjectIgnoresOrder(a: Request, b: Request, p: seq<Profile>, q: seq<Profile>, sorted: seq<Binding>, target: Target)
    requires Reordered(a, b, p, q) && ProfilesClosed(p) && DistinctGroups(a.sources, SourceRole)
    requires ProfileSelected(a, p, target) && WithRole(a.sources, RoleOf(target)).Some?
    ensures WithRole(b.sources, RoleOf(target)).Some? && ProfileSelected(b, q, target)
    ensures Project(a, p, sorted, target) == Project(b, q, sorted, target)
  {
    MultisetMembers(a.sources, b.sources);
    MultisetMembers(a.bindings, b.bindings);
    WithRoleIgnoresOrder(a.sources, b.sources, RoleOf(target));
    SelectedIgnoresOrder(a, b, p, q, target);
    var source := WithRole(a.sources, RoleOf(target)).value;
    forall symbol | symbol in source.symbols
      ensures IsBound(a.bindings, source.id, symbol) <==> IsBound(b.bindings, source.id, symbol)
    {
    }
  }

  /** Reordering sources, bindings and profiles of an accepted request gives the same document. */
  lemma DocumentIgnoresOrder(a: Request, b: Request, p: seq<Profile>, q: seq<Profile>, outside: Outside)
    requires Reordered(a, b, p, q) && Admissible(a, p, outside)
    ensures Admissible(b, q, outside) && Linked(a, p, outside) == Linked(b, q, outside)
  {
    AdmissibleIgnoresOrder(a, b, p, q, outside);
    HasEveryRole(a.sources, outside);
    MultisetMembers(a.sources, b.sources);
    MultisetMembers(a.bindings, b.bindings);
    WithRoleIgnoresOrder(a.sources, b.sources, Brief);
    WithRoleIgnoresOrder(a.sources, b.sources, SysmlModel);
    BindingOrder();
    SortIgnoresOrder(a.bindings, b.bindings, BindingLe, BindingId);
    DiagnosticsIgnoreOrder(a, b);
    DiagnosticOrder();
    SortDependsOnGroups(AllDiagnostics(a), AllDiagnostics(b), DiagnosticLe, DiagnosticSource);
    SourceRefsIgnoreOrder(a.sources, b.sources, outside);
    var sorted := Sort(a.bindings, BindingLe);
    ProjectIgnoresOrder(a, b, p, q, sorted, ToBuild123d);
    ProjectIgnoresOrder(a, b, p, q, sorted, ToModelica);
    ProjectIgnoresOrder(a, b, p, q, sorted, ToCalculix);
  }

  lemma SourceRefsIgnoreOrder(a: seq<Source>, b: seq<Source>, outside: Outside)
    requires SameMembers(a, b) && DistinctGroups(a, SourceId) && DistinctGroups(b, SourceId)
    ensures Sort(Gather(a, RefOf(outside)), SourceRefLe) == Sort(Gather(b, RefOf(outside)), SourceRefLe)
  {
    SourceRefOrder();
    GatherIgnoresOrder(a, b, RefOf(outside), RefOf(outside), RefSource);
    SortDependsOnGroups(Gather(a, RefOf(outside)), Gather(b, RefOf(outside)), SourceRefLe, RefSource);
  }

  // ---------------------------------------------------------- conservation

  function SymbolCount(sources: seq<Source>): nat {
    if sources == [] then 0
    else SymbolCount(sources[..|sources| - 1]) + OwnSymbols(sources[|sources| - 1])
  }

  /** The symbols of a source that need a binding. */
  function OwnSymbols(source: Source): nat {
    if source.role == SysmlModel then 0 else |source.symbols|
  }

  function BoundCount(sources: seq<Source>, bindings: seq<Binding>): nat {
    if sources == [] then 0
    else BoundCount(sources[..|sources| - 1], bindings)
         + |Filter(bindings, InGroup(FromSource, sources[|sources| - 1].id))|
  }

  /** Bindings of one source and its missing-binding errors together are as many as its symbols. */
  lemma SourceConserved(source: Source, sources: seq<Source>, bindings: seq<Binding>, anchor: Source)
    requires source in sources && DistinctGroups(sources, SourceId) && StrictlySorted(source.symbols)
    requires BindingsLink(bindings, sources, anchor)
    ensures |Filter(bindings, InGroup(FromSource, source.id))| + |MissingIn(bindings)(source)| == OwnSymbols(source)
  {
    var p := InGroup(FromSource, source.id);
    if source.role == SysmlModel {
      forall i | 0 <= i < |bindings|
        ensures !p(bindings[i])
      {
        OwnLinks(source, sources, bindings, anchor, bindings[i]);
      }
      FilterNothing(bindings, p);
    } else {
      FilterMembers(bindings, p);
      forall b | b in Filter(bindings, p)
        ensures b.symbolId in source.symbols && b.sourceId == source.id
      {
        OwnLinks(source, sources, bindings, anchor, b);
      }
      FilterKeepsGroups(bindings, p, BindingKey);
      OwnBindingsCount(Filter(bindings, p), source.id);
      MissingCount(source.id, source.symbols, bindings);
      BoundNames(source, bindings);
    }
  }

  lemma OwnLinks(source: Source, sources: seq<Source>, bindings: seq<Binding>, anchor: Source, b: Binding)
    requires source in sources && DistinctGroups(sources, SourceId) && BindingsLink(bindings, sources, anchor)
    requires b in bindings
    ensures InGroup(FromSource, source.id)(b) <==> b.sourceId == source.id
    ensures b.sourceId == source.id ==> source.role != SysmlModel && b.symbolId in source.symbols
  {
    assert Links(b, sources, anchor);
    var s :| s in sources && s.id == b.sourceId && s.role != SysmlModel && b.symbolId in s.symbols;
    assert InGroup(FromSource, source.id)(b) <==> FromSource(b) == source.id;
    if b.sourceId == source.id {
      OneOfGroup(sources, SourceId, s, source);
    }
  }

  function Names(bindings: seq<Binding>): set<string> {
    set b | b in bindings :: b.symbolId
  }

  function BoundSymbols(sourceId: string, symbols: seq<string>, bindings: seq<Binding>): set<string> {
    set symbol | symbol in symbols && IsBound(bindings, sourceId, symbol)
  }

  /** The bound symbols of a source are the ones its bindings name. */
  lemma BoundNames(source: Source, bindings: seq<Binding>)
    requires forall b :: b in Filter(bindings, InGroup(FromSource, source.id)) ==> b.symbolId in source.symbols
    ensures Names(Filter(bindings, InGroup(FromSource, source.id))) == BoundSymbols(source.id, source.symbols, bindings)
  {
    var p := InGroup(FromSource, source.id);
    var own := Filter(bindings, p);
    FilterMembers(bindings, p);
    assert forall b :: p(b) <==> b.sourceId == source.id;
    forall symbol | symbol in BoundSymbols(source.id, source.symbols, bindings)
      ensures symbol in Names(own)
    {
      var b :| b in bindings && b.sourceId == source.id && b.symbolId == symbol;
      assert b in own;
    }
  }

  lemma {:induction false} FilterKeepsGroups<T(!new)>(s: seq<T>, p: T -> bool, group: T -> string)
    requires DistinctGroups(s, group)
    ensures DistinctGroups(Filter(s, p), group)
  {
    if s != [] {
      DistinctTail(s, group);
      FilterKeepsGroups(s[1..], p, group);
      FilterMembers(s[1..], p);
      FilterCons(s[0], s[1..], p);
      assert s == [s[0]] + s[1..];
      DistinctCons(s[0], Filter(s[1..], p), group);
    }
  }

  lemma {:induction false} OwnBindingsCount(own: seq<Binding>, sourceId: string)
    requires DistinctGroups(own, BindingKey) && forall b :: b in own ==> b.sourceId == sourceId
    ensures |Names(own)| == |own|
  {
    if own != [] {
      var rest, first := own[1..], own[0];
      assert own == [first] + rest;
      assert first in own && forall b :: b in rest ==> b in own;
      DistinctTail(own, BindingKey);
      OwnBindingsCount(rest, sourceId);
      assert Names(own) == Names(rest) + {first.symbolId};
      FirstNameIsNew(own, sourceId);
    }
  }

  lemma FirstNameIsNew(own: seq<Binding>, sourceId: string)
    requires own != [] && DistinctGroups(own, BindingKey) && forall b :: b in own ==> b.sourceId == sourceId
    ensures own[0].symbolId !in Names(own[1..])
  {
    forall b | b in own[1..]
      ensures b.symbolId != own[0].symbolId
    {
      DistinctTail(own, BindingKey);
      assert own[0] in own && b in own && BindingKey(b) != BindingKey(own[0]);
    }
  }

  lemma {:induction false} MissingCount(sourceId: string, symbols: seq<string>, bindings: seq<Binding>)
    requires StrictlySorted(symbols)
    ensures |MissingSymbols(sourceId, symbols, bindings)| == |symbols| - |BoundSymbols(sourceId, symbols, bindings)|
  {
    if symbols == [] {
      assert BoundSymbols(sourceId, symbols, bindings) == {};
    } else {
      TailElements(symbols);
      MissingCount(sourceId, symbols[1..], bindings);
      assert symbols[0] !in Elements(symbols[1..]);
      assert forall symbol :: symbol in symbols <==> symbol == symbols[0] || symbol in symbols[1..];
      assert BoundSymbols(sourceId, symbols, bindings)
          == BoundSymbols(sourceId, symbols[1..], bindings)
             + (if IsBound(bindings, sourceId, symbols[0]) then {symbols[0]} else {});
    }
  }

  lemma {:induction false} SumConserved(part: seq<Source>, sources: seq<Source>, bindings: seq<Binding>, anchor: Source)
    requires DistinctGroups(sources, SourceId) && BindingsLink(bindings, sources, anchor)
    requires forall s :: s in part ==> s in sources && StrictlySorted(s.symbols)
    ensures BoundCount(part, bindings) + |Gather(part, MissingIn(bindings))| == SymbolCount(part)
  {
    if part != [] {
      SumConserved(part[..|part| - 1], sources, bindings, anchor);
      SourceConserved(part[|part| - 1], sources, bindings, anchor);
    }
  }

  predicate ComesFrom(sources: seq<Source>, b: Binding) {
    exists s :: s in sources && s.id == b.sourceId
  }

  function FromSome(sources: seq<Source>): Binding -> bool {
    (b: Binding) => ComesFrom(sources, b)
  }

  /** Splitting a list by the source of its bindings loses and doubles nothing. */
  lemma {:induction false} SplitBySource(part: seq<Source>, bindings: seq<Binding>)
    requires DistinctGroups(part, SourceId)
    ensures BoundCount(part, bindings) == |Filter(bindings, FromSome(part))|
  {
    if part == [] {
      FilterNothing(bindings, FromSome(part));
    } else {
      var init, last := part[..|part| - 1], part[|part| - 1];
      DistinctInit(part, SourceId);
      SplitBySource(init, bindings);
      forall b: Binding
        ensures FromSome(part)(b) <==> FromSome(init)(b) || InGroup(FromSource, last.id)(b)
        ensures !(FromSome(init)(b) && InGroup(FromSource, last.id)(b))
      {
        FromLastOrEarlier(part, b);
        assert InGroup(FromSource, last.id)(b) <==> b.sourceId == last.id;
      }
      FilterEither(bindings, FromSome(init), InGroup(FromSource, last.id), FromSome(part));
    }
  }

  lemma FromLastOrEarlier(part: seq<Source>, b: Binding)
    requires part != [] && DistinctGroups(part, SourceId)
    ensures ComesFrom(part, b) <==> ComesFrom(part[..|part| - 1], b) || b.sourceId == part[|part| - 1].id
    ensures !(ComesFrom(part[..|part| - 1], b) && b.sourceId == part[|part| - 1].id)
  {
    var init, last := part[..|part| - 1], part[|part| - 1];
    assert part == init + [last];
    assert last in part && forall s :: s in part <==> s in init || s == last;
    if ComesFrom(init, b) {
      var s :| s in init && s.id == b.sourceId;
      DistinctInit(part, SourceId);
      assert SourceId(s) != SourceId(last);
    }
  }

  lemma {:induction false} FilterEither<T(!new)>(s: seq<T>, p: T -> bool, q: T -> bool, either: T -> bool)
    requires forall x :: (either(x) <==> p(x) || q(x)) && !(p(x) && q(x))
    ensures |Filter(s, either)| == |Filter(s, p)| + |Filter(s, q)|
  {
    if s != [] {
      FilterEither(s[1..], p, q, either);
    }
  }

  /** Bindings and missing-binding diagnostics together count exactly the symbols of the sources beside the anchor. */
  lemma LinksConserved(request: Request, profiles: seq<Profile>, outside: Outside)
    requires Admissible(request, profiles, outside)
    requires forall s :: s in request.sources ==> WellFormed(s)
    ensures var document := Linked(request, profiles, outside);
            |document.bindings| + |Filter(document.diagnostics, IsMissing)| == SymbolCount(request.sources)
  {
    var sources, bindings, anchor := request.sources, request.bindings, WithRole(request.sources, SysmlModel).value;
    SumConserved(sources, sources, bindings, anchor);
    SplitBySource(sources, bindings);
    forall i | 0 <= i < |bindings|
      ensures FromSome(sources)(bindings[i])
    {
      assert Links(bindings[i], sources, anchor);
    }
    FilterEverything(bindings, FromSome(sources));
    SameCount(bindings, BindingLe);
    MissingDiagnosticsCount(request);
  }

  predicate IsMissing(d: Diagnostic) { d.code.MissingBinding? }

  lemma SameCount<T(!new)>(s: seq<T>, le: (T, T) -> bool)
    ensures |Sort(s, le)| == |s|
  {
    SortMultiset(s, le);
    MultisetMembers(Sort(s, le), s);
  }

  lemma MissingDiagnosticsCount(request: Request)
    ensures |Filter(Sort(AllDiagnostics(request), DiagnosticLe), IsMissing)|
         == |Gather(request.sources, MissingIn(request.bindings))|
  {
    var missing, unresolved := Gather(request.sources, MissingIn(request.bindings)), Gather(request.sources, UnresolvedIn);
    DiagnosticOrder();
    FilterSort(AllDiagnostics(request), DiagnosticLe, IsMissing);
    FilterAppend(missing, unresolved, IsMissing);
    MissingAreMissing(request.sources, request.bindings);
    UnresolvedAreNot(request.sources);
    assert missing + [] == missing;
    SameCount(missing, DiagnosticLe);
  }

  lemma MissingAreMissing(sources: seq<Source>, bindings: seq<Binding>)
    ensures Filter(Gather(sources, MissingIn(bindings)), IsMissing) == Gather(sources, MissingIn(bindings))
  {
    GatherMembers(sources, MissingIn(bindings));
    forall i | 0 <= i < |Gather(sources, MissingIn(bindings))|
      ensures IsMissing(Gather(sources, MissingIn(bindings))[i])
    {
      var d := Gather(sources, MissingIn(bindings))[i];
      assert d in Gather(sources, MissingIn(bindings));
      var s :| s in sources && d in MissingIn(bindings)(s);
      MissingSymbolsAreMissing(s.id, s.symbols, bindings);
    }
    FilterEverything(Gather(sources, MissingIn(bindings)), IsMissing);
  }

  lemma UnresolvedAreNot(sources: seq<Source>)
    ensures Filter(Gather(sources, UnresolvedIn), IsMissing) == []
  {
    GatherMembers(sources, UnresolvedIn);
    forall i | 0 <= i < |Gather(sources, UnresolvedIn)|
      ensures !IsMissing(Gather(sources, UnresolvedIn)[i])
    {
      assert Gather(sources, UnresolvedIn)[i] in Gather(sources, UnresolvedIn);
    }
    FilterNothing(Gather(sources, UnresolvedIn), IsMissing);
  }

  lemma {:induction false} MissingSymbolsAreMissing(sourceId: string, symbols: seq<string>, bindings: seq<Binding>)
    ensures forall d :: d in MissingSymbols(sourceId, symbols, bindings) ==> IsMissing(d)
  {
    if symbols != [] {
      MissingSymbolsAreMissing(sourceId, symbols[1..], bindings);
    }
  }

  lemma {:induction false} GatherMembers<T(!new)>(sources: seq<Source>, part: Source -> seq<T>)
    ensures forall x :: x in Gather(sources, part) <==> exists s :: s in sources && x in part(s)
  {
    if sources != [] {
      var init, last := sources[..|sources| - 1], sources[|sources| - 1];
      GatherMembers(init, part);
      assert forall s :: s in sources <==> s in init || s == last;
    }
  }

  // -------------------------------------------------- every binding, once

  /** The binding references of the intent source and of the three projections. */
  ghost function AllRefs(document: Document): seq<string>
    requires |document.projections| == 3
  {
    document.briefRefs + document.projections[0].bindingRefs + document.projections[1].bindingRefs
    + document.projections[2].bindingRefs
  }

  /** The elements of a list, listed group by group. */
  function Grouped(s: seq<Binding>, keys: seq<string>): seq<Binding> {
    if keys == [] then [] else Grouped(s, keys[..|keys| - 1]) + Filter(s, InGroup(FromSource, keys[|keys| - 1]))
  }

  ghost predicate DistinctKeys(keys: seq<string>) {
    forall i, j :: 0 <= i < j < |keys| ==> keys[i] != keys[j]
  }

  lemma GroupedLast(s: seq<Binding>, init: seq<string>, last: string)
    ensures multiset(Grouped(s, init + [last])) == multiset(Grouped(s, init)) + multiset(Filter(s, InGroup(FromSource, last)))
  {
    assert (init + [last])[..|init|] == init;
  }

  lemma FilterConsMultiset(b: Binding, s: seq<Binding>, key: string)
    ensures multiset(Filter([b] + s, InGroup(FromSource, key)))
         == multiset(Filter(s, InGroup(FromSource, key))) + if b.sourceId == key then multiset{b} else multiset{}
  {
    FilterCons(b, s, InGroup(FromSource, key));
    assert InGroup(FromSource, key)(b) <==> FromSource(b) == key;
  }

  lemma {:induction false} GroupedCons(b: Binding, s: seq<Binding>, keys: seq<string>)
    requires DistinctKeys(keys)
    ensures multiset(Grouped([b] + s, keys)) == multiset(Grouped(s, keys)) + if b.sourceId in keys then multiset{b} else multiset{}
  {
    if keys != [] {
      var init, last := keys[..|keys| - 1], keys[|keys| - 1];
      assert keys == init + [last] && last !in init;
      GroupedCons(b, s, init);
      FilterConsMultiset(b, s, last);
      GroupedLast(s, init, last);
      GroupedLast([b] + s, init, last);
    }
  }

  /** Grouping by distinct keys that cover a list is a permutation of it. */
  lemma {:induction false} GroupedIsPermutation(s: seq<Binding>, keys: seq<string>)
    requires DistinctKeys(keys)
    requires forall b :: b in s ==> b.sourceId in keys
    ensures multiset(Grouped(s, keys)) == multiset(s)
  {
    if s == [] {
      GroupedNothing(keys);
    } else {
      var first, rest := s[0], s[1..];
      assert s == [first] + rest;
      assert first.sourceId in keys && forall b :: b in rest ==> b.sourceId in keys;
      GroupedIsPermutation(rest, keys);
      GroupedCons(first, rest, keys);
      assert multiset(s) == multiset{first} + multiset(rest);
    }
  }

  lemma {:induction false} GroupedNothing(keys: seq<string>)
    ensures Grouped([], keys) == []
  {
    if keys != [] {
      GroupedNothing(keys[..|keys| - 1]);
    }
  }

  lemma IdsInsert(a: seq<Binding>, x: Binding, b: seq<Binding>)
    ensures multiset(Ids(a + [x] + b)) == multiset(Ids(a + b)) + multiset{x.id}
  {
    assert Ids(a + [x] + b) == Ids(a) + [x.id] + Ids(b) && Ids(a + b) == Ids(a) + Ids(b);
  }

  lemma Extract<T>(s: seq<T>, x: T) returns (a: seq<T>, b: seq<T>)
    requires x in s
    ensures s == a + [x] + b && multiset(s) == multiset(a + b) + multiset{x}
  {
    var k :| 0 <= k < |s| && s[k] == x;
    a, b := s[..k], s[k + 1..];
    assert s == a + [x] + b;
  }

  lemma {:induction false} IdsOfPermutation(a: seq<Binding>, b: seq<Binding>)
    requires multiset(a) == multiset(b)
    ensures multiset(Ids(a)) == multiset(Ids(b))
    decreases |a|
  {
    MultisetMembers(a, b);
    if a != [] {
      assert a[0] in b && a == [] + [a[0]] + a[1..] && [] + a[1..] == a[1..];
      var before, after := Extract(b, a[0]);
      PermuteRest(a, a[0], before + after);
      IdsOfPermutation(a[1..], before + after);
      IdsInsert([], a[0], a[1..]);
      IdsInsert(before, a[0], after);
    }
  }

  lemma PermuteRest<T>(a: seq<T>, x: T, rest: seq<T>)
    requires a != [] && a[0] == x && multiset(a) == multiset(rest) + multiset{x}
    ensures multiset(a[1..]) == multiset(rest)
  {
    assert a == [x] + a[1..];
    assert multiset(a) == multiset{x} + multiset(a[1..]);
    assert multiset(a) - multiset{x} == multiset(a[1..]);
  }

  /** The source closure, as far as roles and ids go. */
  ghost predicate OnePerRole(sources: seq<Source>) {
    && |sources| == 5 && DistinctGroups(sources, SourceRole) && DistinctGroups(sources, SourceId)
    && HasRole(sources, Brief) && HasRole(sources, SysmlModel) && HasRole(sources, CadScript)
    && HasRole(sources, ModelicaModel) && HasRole(sources, CalculixInput)
  }

  predicate HasRole(sources: seq<Source>, role: Role) { WithRole(sources, role).Some? }

  lemma ClosedIsOnePerRole(sources: seq<Source>, outside: Outside)
    requires SourcesClosed(sources, outside)
    ensures OnePerRole(sources)
  {
    HasEveryRole(sources, outside);
  }

  function IdFor(sources: seq<Source>, role: Role): string
    requires HasRole(sources, role)
  {
    WithRole(sources, role).value.id
  }

  /** Sources beside the anchor, by role. */
  ghost function LinkedSourceIds(sources: seq<Source>): seq<string>
    requires OnePerRole(sources)
  {
    [IdFor(sources, Brief), IdFor(sources, CadScript), IdFor(sources, ModelicaModel), IdFor(sources, CalculixInput)]
  }

  lemma IdsDiffer(sources: seq<Source>, r: Role, q: Role)
    requires DistinctGroups(sources, SourceId) && HasRole(sources, r) && HasRole(sources, q) && r != q
    ensures IdFor(sources, r) != IdFor(sources, q)
  {
    var x, y := WithRole(sources, r).value, WithRole(sources, q).value;
    if x.id == y.id {
      OneOfGroup(sources, SourceId, x, y);
    }
  }

  lemma LinkedSourcesDistinct(sources: seq<Source>)
    requires OnePerRole(sources)
    ensures DistinctKeys(LinkedSourceIds(sources))
  {
    IdsDiffer(sources, Brief, CadScript);
    IdsDiffer(sources, Brief, ModelicaModel);
    IdsDiffer(sources, Brief, CalculixInput);
    IdsDiffer(sources, CadScript, ModelicaModel);
    IdsDiffer(sources, CadScript, CalculixInput);
    IdsDiffer(sources, ModelicaModel, CalculixInput);
  }

  lemma {:induction false} RoleCount(sources: seq<Source>, roles: set<Role>)
    requires forall role :: role in roles ==> HasRole(sources, role)
    ensures |roles| <= |sources|
  {
    if sources == [] {
      assert roles == {};
    } else {
      RoleCount(sources[1..], roles - {sources[0].role});
    }
  }

  /** Five distinct roles, among them the five expected ones, leave no room for another. */
  lemma NoSixthRole(sources: seq<Source>)
    requires OnePerRole(sources)
    ensures !HasRole(sources, SpiceCircuit)
  {
    if HasRole(sources, SpiceCircuit) {
      RoleCount(sources, EveryRole());
      RolesAreSix();
    }
  }

  ghost function EveryRole(): set<Role> {
    {Brief, SysmlModel, CadScript, ModelicaModel, CalculixInput, SpiceCircuit}
  }

  lemma RolesAreSix()
    ensures |EveryRole()| == 6
  {
  }

  lemma OnlyExpectedRoles(sources: seq<Source>, s: Source)
    requires OnePerRole(sources) && s in sources
    ensures s.role != SpiceCircuit && WithRole(sources, s.role) == Some(s)
  {
    NoSixthRole(sources);
    OneOfGroup(sources, SourceRole, s, WithRole(sources, s.role).value);
  }

  /** Each binding is referenced exactly once, by the intent source or by the projection of its own source. */
  lemma EveryBindingOnce(request: Request, profiles: seq<Profile>, outside: Outside)
    requires Admissible(request, profiles, outside)
    ensures var refs := AllRefs(Linked(request, profiles, outside));
            multiset(refs) == multiset(Ids(request.bindings))
            && forall b :: b in request.bindings ==> multiset(refs)[b.id] == 1
  {
    ClosedIsOnePerRole(request.sources, outside);
    LinkedSourcesDistinct(request.sources);
    RefsOfDocument(request, profiles, outside);
    forall b | b in request.bindings
      ensures b.sourceId in LinkedSourceIds(request.sources)
    {
      LinkedToKey(request.sources, WithRole(request.sources, SysmlModel).value, b);
    }
    GroupedRefs(request.bindings, LinkedSourceIds(request.sources));
    forall b | b in request.bindings
      ensures multiset(Ids(request.bindings))[b.id] == 1
    {
      IdOnce(request.bindings, b);
    }
  }

  function RefsOf(sorted: seq<Binding>, keys: seq<string>): seq<string>
    requires |keys| == 4
  {
    RefsTo(sorted, keys[0]) + RefsTo(sorted, keys[1]) + RefsTo(sorted, keys[2]) + RefsTo(sorted, keys[3])
  }

  lemma RefsOfDocument(request: Request, profiles: seq<Profile>, outside: Outside)
    requires Admissible(request, profiles, outside) && OnePerRole(request.sources)
    ensures AllRefs(Linked(request, profiles, outside))
         == RefsOf(Sort(request.bindings, BindingLe), LinkedSourceIds(request.sources))
  {
    ProjectionsOf(request, profiles, outside);
  }

  lemma GroupedRefs(bindings: seq<Binding>, keys: seq<string>)
    requires |keys| == 4 && DistinctKeys(keys) && forall b :: b in bindings ==> b.sourceId in keys
    ensures multiset(RefsOf(Sort(bindings, BindingLe), keys)) == multiset(Ids(bindings))
  {
    var sorted := Sort(bindings, BindingLe);
    SortMultiset(bindings, BindingLe);
    MultisetMembers(sorted, bindings);
    GroupedIsPermutation(sorted, keys);
    RefsAreGrouped(sorted, keys);
    IdsOfPermutation(Grouped(sorted, keys), bindings);
  }

  lemma LinkedToKey(sources: seq<Source>, anchor: Source, b: Binding)
    requires OnePerRole(sources) && Links(b, sources, anchor)
    ensures b.sourceId in LinkedSourceIds(sources)
  {
    var s :| s in sources && s.id == b.sourceId && s.role != SysmlModel && b.symbolId in s.symbols;
    OnlyExpectedRoles(sources, s);
    var keys := LinkedSourceIds(sources);
    assert keys[0] in keys && keys[1] in keys && keys[2] in keys && keys[3] in keys;
  }

  lemma RefsAreGrouped(sorted: seq<Binding>, keys: seq<string>)
    requires |keys| == 4
    ensures Ids(Grouped(sorted, keys)) == RefsOf(sorted, keys)
  {
    assert keys[..3][..2] == keys[..2] && keys[..2][..1] == keys[..1] && keys[..1][..0] == [];
    IdsAppend(Grouped(sorted, keys[..3]), Filter(sorted, InGroup(FromSource, keys[3])));
    IdsAppend(Grouped(sorted, keys[..2]), Filter(sorted, InGroup(FromSource, keys[2])));
    IdsAppend(Grouped(sorted, keys[..1]), Filter(sorted, InGroup(FromSource, keys[1])));
    assert Grouped(sorted, keys[..1]) == [] + Filter(sorted, InGroup(FromSource, keys[0]));
  }

  lemma IdsAppend(a: seq<Binding>, b: seq<Binding>)
    ensures Ids(a + b) == Ids(a) + Ids(b)
  {
  }

  lemma {:induction false} IdOnce(bindings: seq<Binding>, b: Binding)
    requires DistinctGroups(bindings, BindingId) && b in bindings
    ensures multiset(Ids(bindings))[b.id] == 1
  {
    var ids := Ids(bindings);
    var k :| 0 <= k < |bindings| && bindings[k] == b;
    assert ids == ids[..k] + [b.id] + ids[k + 1..];
    forall i | 0 <= i < |ids| && i != k
      ensures ids[i] != b.id
    {
      assert if i < k then GroupsDiffer(bindings, BindingId, i, k) else GroupsDiffer(bindings, BindingId, k, i);
    }
    assert b.id !in ids[..k] && b.id !in ids[k + 1..];
    assert multiset(ids[..k])[b.id] == 0 && multiset(ids[k + 1..])[b.id] == 0;
  }

  // ------------------------------------------------------------- resolution

  /** The document is resolved exactly when its projections are, every brief symbol is bound,
      and no source has an unresolved construct. */
  lemma ResolvedIff(request: Request, profiles: seq<Profile>, outside: Outside)
    requires Admissible(request, profiles, outside)
    ensures var document := Linked(request, profiles, outside);
            document.resolved <==>
              && ProjectionsResolved(document.projections)
              && AllBound(WithRole(request.sources, Brief).value, request.bindings)
              && NoneUnresolved(request.sources)
  {
    ClosedIsOnePerRole(request.sources, outside);
    SettledByRole(request.sources, request.bindings);
    ResolvedWhenSettled(request, profiles, outside);
    ProjectionsOf(request, profiles, outside);
    ProjectionsSettled(request, profiles, Sort(request.bindings, BindingLe));
  }

  predicate ProjectionsResolved(projections: seq<Projection>) {
    |projections| == 3 && projections[0].resolved && projections[1].resolved && projections[2].resolved
  }

  ghost predicate Projectable(request: Request, profiles: seq<Profile>, target: Target) {
    WithRole(request.sources, RoleOf(target)).Some? && ProfileSelected(request, profiles, target)
  }

  lemma ProjectionsSettled(request: Request, profiles: seq<Profile>, sorted: seq<Binding>)
    requires Projectable(request, profiles, ToBuild123d) && Projectable(request, profiles, ToModelica)
    requires Projectable(request, profiles, ToCalculix)
    ensures ProjectionsResolved([Project(request, profiles, sorted, ToBuild123d), Project(request, profiles, sorted, ToModelica),
                                 Project(request, profiles, sorted, ToCalculix)])
            <==> && Settled(WithRole(request.sources, CadScript).value, request.bindings)
                 && Settled(WithRole(request.sources, ModelicaModel).value, request.bindings)
                 && Settled(WithRole(request.sources, CalculixInput).value, request.bindings)
  {
    ProjectSettled(request, profiles, sorted, ToBuild123d);
    ProjectSettled(request, profiles, sorted, ToModelica);
    ProjectSettled(request, profiles, sorted, ToCalculix);
  }

  predicate NoneUnresolved(sources: seq<Source>) {
    forall s :: s in sources ==> s.unresolved == []
  }

  lemma ProjectSettled(request: Request, profiles: seq<Profile>, sorted: seq<Binding>, target: Target)
    requires WithRole(request.sources, RoleOf(target)).Some? && ProfileSelected(request, profiles, target)
    ensures Project(request, profiles, sorted, target).resolved
            <==> Settled(WithRole(request.sources, RoleOf(target)).value, request.bindings)
  {
  }

  lemma ProjectionsOf(request: Request, profiles: seq<Profile>, outside: Outside)
    requires Admissible(request, profiles, outside) && OnePerRole(request.sources)
    ensures var sorted := Sort(request.bindings, BindingLe);
            Linked(request, profiles, outside).projections
            == [Project(request, profiles, sorted, ToBuild123d), Project(request, profiles, sorted, ToModelica),
                Project(request, profiles, sorted, ToCalculix)]
  {
  }

  lemma ResolvedWhenSettled(request: Request, profiles: seq<Profile>, outside: Outside)
    requires Admissible(request, profiles, outside)
    ensures Linked(request, profiles, outside).resolved <==> EverySourceSettled(request.sources, request.bindings)
  {
    SameCount(AllDiagnostics(request), DiagnosticLe);
    ResolvedWithout(request);
  }

  lemma ResolvedWithout(request: Request)
    ensures AllDiagnostics(request) == [] <==> EverySourceSettled(request.sources, request.bindings)
  {
    NothingMissing(request.sources, request.bindings);
    NothingUnresolved(request.sources);
  }

  predicate Settled(s: Source, bindings: seq<Binding>) {
    AllBound(s, bindings) && s.unresolved == []
  }

  ghost predicate EverySourceSettled(sources: seq<Source>, bindings: seq<Binding>) {
    && (forall s :: s in sources && s.role != SysmlModel ==> AllBound(s, bindings))
    && NoneUnresolved(sources)
  }

  lemma SettledByRole(sources: seq<Source>, bindings: seq<Binding>)
    requires OnePerRole(sources)
    ensures EverySourceSettled(sources, bindings) <==>
              && AllBound(WithRole(sources, Brief).value, bindings)
              && Settled(WithRole(sources, CadScript).value, bindings)
              && Settled(WithRole(sources, ModelicaModel).value, bindings)
              && Settled(WithRole(sources, CalculixInput).value, bindings)
              && NoneUnresolved(sources)
  {
    forall s | s in sources
      ensures s.role != SpiceCircuit && WithRole(sources, s.role) == Some(s)
    {
      OnlyExpectedRoles(sources, s);
    }
  }

  lemma NothingMissing(sources: seq<Source>, bindings: seq<Binding>)
    ensures Gather(sources, MissingIn(bindings)) == [] <==> forall s :: s in sources && s.role != SysmlModel ==> AllBound(s, bindings)
  {
    GatherMembers(sources, MissingIn(bindings));
    forall s: Source
      ensures MissingIn(bindings)(s) == [] <==> s.role == SysmlModel || AllBound(s, bindings)
    {
      NoMissingSymbols(s.id, s.symbols, bindings);
    }
    EmptyGather(sources, MissingIn(bindings));
  }

  lemma {:induction false} NoMissingSymbols(sourceId: string, symbols: seq<string>, bindings: seq<Binding>)
    ensures MissingSymbols(sourceId, symbols, bindings) == [] <==> forall symbol :: symbol in symbols ==> IsBound(bindings, sourceId, symbol)
  {
    if symbols != [] {
      NoMissingSymbols(sourceId, symbols[1..], bindings);
      assert forall symbol :: symbol in symbols <==> symbol == symbols[0] || symbol in symbols[1..];
    }
  }

  lemma NothingUnresolved(sources: seq<Source>)
    ensures Gather(sources, UnresolvedIn) == [] <==> forall s :: s in sources ==> s.unresolved == []
  {
    EmptyGather(sources, UnresolvedIn);
    forall s: Source
      ensures UnresolvedIn(s) == [] <==> s.unresolved == []
    {
      assert |UnresolvedIn(s)| == |s.unresolved|;
    }
  }

  lemma {:induction false} EmptyGather<T>(sources: seq<Source>, part: Source -> seq<T>)
    ensures Gather(sources, part) == [] <==> forall s :: s in sources ==> part(s) == []
  {
    if sources != [] {
      var init, last := sources[..|sources| - 1], sources[|sources| - 1];
      EmptyGather(init, part);
      assert last in sources && forall s :: s in sources <==> s in init || s == last;
    }
  }
}
