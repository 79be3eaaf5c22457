/** The analysis bundle of one source: what its validation accepts, and what a validated bundle guarantees. */
module SourceBundle {
  import opened Text
  import opened Identifiers
  import opened StableSort
  import Admission

  datatype SymbolKind =
    | Artifact | BriefItem | Component | Equation | Function | Metric | Parameter | Requirement | Variable

  datatype DependencyKind = StaticValueFlow | DeclaredDependency | StructuralIncidence

  datatype Symbol = Symbol(id: string, kind: SymbolKind, name: string)

  datatype Dependency = Dependency(id: string, kind: DependencyKind, fromSymbolId: string, toSymbolId: string)

  datatype Bundle = Bundle(sourceId: string, symbols: seq<Symbol>, dependencies: seq<Dependency>)

  // -------------------------------------------------------------- acceptance

  function IdOfSymbol(symbol: Symbol): string { symbol.id }

  function IdOfDependency(dependency: Dependency): string { dependency.id }

  predicate SymbolFits(symbol: Symbol) {
    SafeId(symbol.id) && IsTrimmedText(symbol.name)
  }

  predicate DependencyFits(dependency: Dependency) {
    SafeId(dependency.id) && SafeId(dependency.fromSymbolId) && SafeId(dependency.toSymbolId)
  }

  /** The dependency joins two different symbols of the bundle. */
  ghost predicate Joins(symbols: seq<Symbol>, dependency: Dependency) {
    && (exists s :: s in symbols && s.id == dependency.fromSymbolId)
    && (exists s :: s in symbols && s.id == dependency.toSymbolId)
    && dependency.fromSymbolId != dependency.toSymbolId
  }

  ghost predicate AllJoin(symbols: seq<Symbol>, dependencies: seq<Dependency>) {
    forall d :: d in dependencies ==> Joins(symbols, d)
  }

  ghost predicate IsValid(bundle: Bundle) {
    && SafeId(bundle.sourceId)
    && (forall s :: s in bundle.symbols ==> SymbolFits(s)) && DistinctGroups(bundle.symbols, IdOfSymbol)
    && (forall d :: d in bundle.dependencies ==> DependencyFits(d)) && DistinctGroups(bundle.dependencies, IdOfDependency)
    && AllJoin(bundle.symbols, bundle.dependencies)
  }

  /** `compareById(left, right) <= 0` */
  predicate SymbolLe(left: Symbol, right: Symbol) { AtMost(left.id, right.id) }

  predicate DependencyLe(left: Dependency, right: Dependency) { AtMost(left.id, right.id) }

  function InIdOrder(bundle: Bundle): Bundle {
    Bundle(bundle.sourceId, Sort(bundle.symbols, SymbolLe), Sort(bundle.dependencies, DependencyLe))
  }

  // ------------------------------------------------------------- the checks

  method ParseSymbols(symbols: seq<Symbol>) returns (sorted: Option<seq<Symbol>>)
    ensures sorted.Some? <==> (forall s :: s in symbols ==> SymbolFits(s)) && DistinctGroups(symbols, IdOfSymbol)
    ensures sorted.Some? ==> sorted.value == Sort(symbols, SymbolLe)
  {
    for i := 0 to |symbols|
      invariant forall j :: 0 <= j < i ==> SymbolFits(symbols[j])
    {
      if !SymbolFits(symbols[i]) { return None; }
    }
    var inOrder := Sort(symbols, SymbolLe);
    SymbolOrder();
    SameDistinct(symbols, inOrder, SymbolLe, IdOfSymbol);
    var distinct := Distinct(inOrder, IdOfSymbol);
    return if distinct then Some(inOrder) else None;
  }

  method ParseDependencies(dependencies: seq<Dependency>) returns (sorted: Option<seq<Dependency>>)
    ensures sorted.Some?
            <==> (forall d :: d in dependencies ==> DependencyFits(d)) && DistinctGroups(dependencies, IdOfDependency)
    ensures sorted.Some? ==> sorted.value == Sort(dependencies, DependencyLe)
  {
    for i := 0 to |dependencies|
      invariant forall j :: 0 <= j < i ==> DependencyFits(dependencies[j])
    {
      if !DependencyFits(dependencies[i]) { return None; }
    }
    var inOrder := Sort(dependencies, DependencyLe);
    DependencyOrder();
    SameDistinct(dependencies, inOrder, DependencyLe, IdOfDependency);
    var distinct := Distinct(inOrder, IdOfDependency);
    return if distinct then Some(inOrder) else None;
  }

  lemma SameDistinct<T(!new)>(s: seq<T>, sorted: seq<T>, le: (T, T) -> bool, group: T -> string)
    requires sorted == Sort(s, le)
    ensures DistinctGroups(s, group) <==> DistinctGroups(sorted, group)
  {
    SortMultiset(s, le);
    if DistinctGroups(s, group) {
      DistinctIgnoresOrder(s, sorted, group);
    }
    if DistinctGroups(sorted, group) {
      DistinctIgnoresOrder(sorted, s, group);
    }
  }

  /** The loop over the sorted dependencies. */
  method CheckJoins(symbols: seq<Symbol>, dependencies: seq<Dependency>) returns (joined: bool)
    ensures joined <==> AllJoin(symbols, dependencies)
  {
    var symbolIds := Groups(symbols, IdOfSymbol);
    for i := 0 to |dependencies|
      invariant forall j :: 0 <= j < i ==> Joins(symbols, dependencies[j])
    {
      var d := dependencies[i];
      if d.fromSymbolId !in symbolIds || d.toSymbolId !in symbolIds || d.fromSymbolId == d.toSymbolId {
        assert !Joins(symbols, d);
        return false;
      }
    }
    joined := true;
  }

  /** Accepts exactly the valid bundles, and puts their records in the order of their ids. */
  method Validate(bundle: Bundle) returns (r: Option<Bundle>)
    ensures r.Some? <==> IsValid(bundle)
    ensures r.Some? ==> r.value == InIdOrder(bundle) && IsArranged(bundle, r.value)
  {
    if !SafeId(bundle.sourceId) { return None; }
    var symbols := ParseSymbols(bundle.symbols);
    if symbols.None? { return None; }
    var dependencies := ParseDependencies(bundle.dependencies);
    if dependencies.None? { return None; }
    OrderKeepsJoins(bundle);
    var joined := CheckJoins(symbols.value, dependencies.value);
    if !joined { return None; }
    InIdOrderIsArranged(bundle);
    return Some(Bundle(bundle.sourceId, symbols.value, dependencies.value));
  }

  lemma SameMembers<T(!new)>(s: seq<T>, le: (T, T) -> bool)
    ensures forall x :: x in Sort(s, le) <==> x in s
  {
    SortMultiset(s, le);
    forall x
      ensures x in Sort(s, le) <==> x in s
    {
      InMultiset(Sort(s, le), s, x);
    }
  }

  lemma OrderKeepsJoins(bundle: Bundle)
    ensures AllJoin(Sort(bundle.symbols, SymbolLe), Sort(bundle.dependencies, DependencyLe))
            <==> AllJoin(bundle.symbols, bundle.dependencies)
  {
    var inOrder := InIdOrder(bundle);
    SameMembers(bundle.symbols, SymbolLe);
    SameMembers(bundle.dependencies, DependencyLe);
    forall d
      ensures Joins(inOrder.symbols, d) <==> Joins(bundle.symbols, d)
    {
    }
  }

  lemma SymbolOrder()
    ensures TotalPreorder(SymbolLe) && Separates(SymbolLe, IdOfSymbol)
  {
    forall x: Symbol, y: Symbol, z: Symbol
      ensures SymbolLe(x, y) || SymbolLe(y, x)
      ensures SymbolLe(x, y) && SymbolLe(y, z) ==> SymbolLe(x, z)
      ensures SymbolLe(x, y) && SymbolLe(y, x) ==> IdOfSymbol(x) == IdOfSymbol(y)
    {
      AtMostIsOrder(x.id, y.id, z.id);
    }
  }

  lemma DependencyOrder()
    ensures TotalPreorder(DependencyLe) && Separates(DependencyLe, IdOfDependency)
  {
    forall x: Dependency, y: Dependency, z: Dependency
      ensures DependencyLe(x, y) || DependencyLe(y, x)
      ensures DependencyLe(x, y) && DependencyLe(y, z) ==> DependencyLe(x, z)
      ensures DependencyLe(x, y) && DependencyLe(y, x) ==> IdOfDependency(x) == IdOfDependency(y)
    {
      AtMostIsOrder(x.id, y.id, z.id);
    }
  }

  lemma AtMostIsOrder(x: string, y: string, z: string)
    ensures AtMost(x, y) || AtMost(y, x)
    ensures AtMost(x, y) && AtMost(y, z) ==> AtMost(x, z)
    ensures AtMost(x, y) && AtMost(y, x) ==> x == y
  {
    LessIsTotal(x, y);
    LessIsAsymmetric(x, y);
    if AtMost(x, y) && AtMost(y, z) && x != y && y != z {
      LessIsTransitive(x, y, z);
    }
  }

  // -------------------------------------------------------------- guarantees

  function Ids(symbols: seq<Symbol>): (ids: seq<string>)
    ensures |ids| == |symbols| && forall i :: 0 <= i < |symbols| ==> ids[i] == symbols[i].id
  {
    seq(|symbols|, i requires 0 <= i < |symbols| => symbols[i].id)
  }

  /** A validated bundle is valid, and validating it again changes nothing. */
  lemma ValidatedIsStable(bundle: Bundle)
    requires IsValid(bundle)
    ensures IsValid(InIdOrder(bundle)) && InIdOrder(InIdOrder(bundle)) == InIdOrder(bundle)
  {
    var inOrder := InIdOrder(bundle);
    SymbolOrder();
    DependencyOrder();
    SameMembers(bundle.symbols, SymbolLe);
    SameMembers(bundle.dependencies, DependencyLe);
    SameDistinct(bundle.symbols, inOrder.symbols, SymbolLe, IdOfSymbol);
    SameDistinct(bundle.dependencies, inOrder.dependencies, DependencyLe, IdOfDependency);
    OrderKeepsJoins(bundle);
    SortMultiset(bundle.symbols, SymbolLe);
    SortIgnoresOrder(inOrder.symbols, bundle.symbols, SymbolLe, IdOfSymbol);
    SortMultiset(bundle.dependencies, DependencyLe);
    SortIgnoresOrder(inOrder.dependencies, bundle.dependencies, DependencyLe, IdOfDependency);
  }

  lemma IdsStrictlySorted(bundle: Bundle)
    requires IsValid(bundle)
    ensures StrictlySorted(Ids(InIdOrder(bundle).symbols))
  {
    var symbols := InIdOrder(bundle).symbols;
    SymbolOrder();
    SortSorted(bundle.symbols, SymbolLe);
    SameDistinct(bundle.symbols, symbols, SymbolLe, IdOfSymbol);
    forall i, j | 0 <= i < j < |symbols|
      ensures InOrder(Ids(symbols), i, j)
    {
      assert SymbolLe(symbols[i], symbols[j]) && GroupsDiffer(symbols, IdOfSymbol, i, j);
    }
  }

  function DependencyIds(dependencies: seq<Dependency>): (r: seq<string>)
    ensures |r| == |dependencies|
  {
    seq(|dependencies|, i requires 0 <= i < |dependencies| => dependencies[i].id)
  }

  lemma DependenciesStrictlySorted(bundle: Bundle)
    requires IsValid(bundle)
    ensures StrictlySorted(DependencyIds(InIdOrder(bundle).dependencies))
  {
    var dependencies := InIdOrder(bundle).dependencies;
    DependencyOrder();
    SortSorted(bundle.dependencies, DependencyLe);
    SameDistinct(bundle.dependencies, dependencies, DependencyLe, IdOfDependency);
    forall i, j | 0 <= i < j < |dependencies|
      ensures InOrder(DependencyIds(dependencies), i, j)
    {
      assert DependencyLe(dependencies[i], dependencies[j]) && GroupsDiffer(dependencies, IdOfDependency, i, j);
    }
  }

  /** The records of the bundle, each of them, in the strict order of their ids. */
  ghost predicate IsArranged(bundle: Bundle, inOrder: Bundle) {
    && inOrder.sourceId == bundle.sourceId
    && multiset(inOrder.symbols) == multiset(bundle.symbols) && StrictlySorted(Ids(inOrder.symbols))
    && multiset(inOrder.dependencies) == multiset(bundle.dependencies) && StrictlySorted(DependencyIds(inOrder.dependencies))
  }

  lemma InIdOrderIsArranged(bundle: Bundle)
    requires IsValid(bundle)
    ensures IsArranged(bundle, InIdOrder(bundle))
  {
    IdsStrictlySorted(bundle);
    DependenciesStrictlySorted(bundle);
    SortMultiset(bundle.symbols, SymbolLe);
    SortMultiset(bundle.dependencies, DependencyLe);
  }

  lemma SafeHasNoNul(id: string)
    requires SafeId(id)
    ensures Admission.NUL !in id
  {
    assert !IsSafeChar(Admission.NUL);
  }

  /** The linker may take a source with a validated bundle for well formed. */
  lemma ValidatedIsWellFormed(bundle: Bundle, source: Admission.Source)
    requires IsValid(bundle)
    requires source.id == bundle.sourceId && source.symbols == Ids(InIdOrder(bundle).symbols)
    ensures Admission.WellFormed(source)
  {
    SafeHasNoNul(source.id);
    IdsStrictlySorted(bundle);
    var symbols := InIdOrder(bundle).symbols;
    SameMembers(bundle.symbols, SymbolLe);
    forall i | 0 <= i < |source.symbols|
      ensures Admission.NUL !in source.symbols[i]
    {
      assert symbols[i] in bundle.symbols && SymbolFits(symbols[i]);
      SafeHasNoNul(symbols[i].id);
    }
  }
}
