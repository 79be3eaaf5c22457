/** The analysis of a CalculiX source: the parsed deck, handed to the bundle validation. */
module CalculixBundle {
  import opened Text
  import opened Identifiers
  import opened StableSort
  import opened SourceBundle
  import CalculixDeck

  const ROOT := "deck:root"

  /** With the words around it, the id of a dependency may have 256 characters. */
  const LONGEST_ID := 236

  /** What follows the category and its colon. */
  function NameIn(id: string): string {
    var rest := DropWhile(id, c => c != ':');
    if rest == "" then "" else rest[1..]
  }

  function ComponentOf(id: string): Symbol {
    Symbol(id, Component, NameIn(id))
  }

  function IncidenceOf(id: string): Dependency {
    Dependency("incidence:" + id + ":" + ROOT, StructuralIncidence, id, ROOT)
  }

  /** The bundle of a deck that names these ids, before validation. */
  function DeckBundle(sourceId: string, ids: seq<string>): Bundle {
    Bundle(sourceId,
           [Symbol(ROOT, Artifact, sourceId)] + seq(|ids|, i requires 0 <= i < |ids| => ComponentOf(ids[i])),
           seq(|ids|, i requires 0 <= i < |ids| => IncidenceOf(ids[i])))
  }

  // ------------------------------------------------------ what ids look like

  ghost predicate IsDeckId(id: string) {
    exists category, name :: IsIdOf(id, category, name)
  }

  ghost predicate IsIdOf(id: string, category: CalculixDeck.Category, name: string) {
    CalculixDeck.IsName(name) && id == CalculixDeck.Key(category) + ":" + name
  }

  lemma {:induction false} FieldIds(fields: seq<string>)
    ensures forall id :: id in CalculixDeck.IdsOfFields(fields) ==> IsDeckId(id)
  {
    if fields != [] {
      var last := fields[|fields| - 1];
      FieldIds(fields[..|fields| - 1]);
      if CalculixDeck.CategoryOf(last).Some? {
        assert IsIdOf(CalculixDeck.SymbolId(last), CalculixDeck.CategoryOf(last).value, CalculixDeck.NameOf(last));
      }
    }
  }

  /** Every id a deck names is a category, a colon and a name. */
  lemma {:induction false} NamedShape(lines: seq<string>)
    ensures forall id :: id in CalculixDeck.NamedIds(lines) ==> IsDeckId(id)
  {
    if lines != [] {
      var last := lines[|lines| - 1];
      NamedShape(lines[..|lines| - 1]);
      if CalculixDeck.IsDirective(last) {
        FieldIds(CalculixDeck.FieldsOf(last)[1..]);
      }
    }
  }

  /** Such an id keeps its characters to the pattern of a stable identifier, and it is not the root. */
  lemma DeckIdShape(id: string)
    requires IsDeckId(id)
    ensures id != ROOT && id != "" && IsAlphanumeric(id[0])
    ensures SafeName(id) && SafeName(NameIn(id))
  {
    var category, name :| IsIdOf(id, category, name);
    var key := CalculixDeck.Key(category);
    assert id[0] == key[0];
    KeyIsPlain(category);
    forall i | 0 <= i < |id|
      ensures IsSafeChar(id[i])
    {
      assert id[i] == if i < |key| then key[i] else if i == |key| then ':' else name[i - |key| - 1];
    }
    NameBehindColon(id, category, name);
  }

  lemma NameBehindColon(id: string, category: CalculixDeck.Category, name: string)
    requires IsIdOf(id, category, name)
    ensures NameIn(id) == name
  {
    var key := CalculixDeck.Key(category);
    KeyIsPlain(category);
    Regroup(key, ":", name);
    assert All(key, c => c != ':') && ":" + name != "" && (":" + name)[0] == ':';
    DropWhileOf(key, ":" + name, c => c != ':');
  }

  lemma KeyIsPlain(category: CalculixDeck.Category)
    ensures forall i :: 0 <= i < |CalculixDeck.Key(category)| ==>
              IsLetter(CalculixDeck.Key(category)[i]) && CalculixDeck.Key(category)[i] != ':'
  {
  }

  /** Not empty, and nothing but characters of identifiers: in particular without white space at its ends. */
  predicate SafeName(name: string) {
    name != "" && forall i :: 0 <= i < |name| ==> IsSafeChar(name[i])
  }

  lemma SafeIsTrimmed(name: string)
    requires SafeName(name)
    ensures IsTrimmedText(name)
  {
  }

  // ------------------------------------------------- what validation refuses

  lemma ComponentFits(id: string)
    requires IsDeckId(id)
    ensures SymbolFits(ComponentOf(id)) <==> |id| <= 256
  {
    DeckIdShape(id);
    SafeIsTrimmed(NameIn(id));
  }

  lemma IncidenceFits(id: string)
    requires IsDeckId(id)
    ensures DependencyFits(IncidenceOf(id)) <==> |id| <= LONGEST_ID
  {
    DeckIdShape(id);
    WordsAreSafe();
    SafeAppend("incidence:", id);
    SafeAppend("incidence:" + id, ":");
    SafeAppend("incidence:" + id + ":", ROOT);
    assert IncidenceOf(id).id[0] == 'i';
  }

  lemma WordsAreSafe()
    ensures SafeName("incidence:") && SafeName(":") && SafeName(ROOT) && SafeId(ROOT)
  {
  }

  lemma SafeAppend(a: string, b: string)
    requires SafeName(a) && SafeName(b)
    ensures SafeName(a + b)
  {
  }

  lemma IncidenceIsInjective(a: string, b: string)
    requires IncidenceOf(a).id == IncidenceOf(b).id
    ensures a == b
  {
    var head, tail := "incidence:", ":" + ROOT;
    var x, y := head + a + tail, head + b + tail;
    Regroup(head + a, ":", ROOT);
    Regroup(head + b, ":", ROOT);
    assert x == y;
    assert x[|head|..|head| + |a|] == a && y[|head|..|head| + |b|] == b;
  }

  ghost predicate AllDeckIds(ids: seq<string>) {
    (forall id :: id in ids ==> IsDeckId(id)) && forall i, j :: 0 <= i < j < |ids| ==> ids[i] != ids[j]
  }

  lemma IdsDistinct(sourceId: string, ids: seq<string>)
    requires AllDeckIds(ids)
    ensures var bundle := DeckBundle(sourceId, ids);
            DistinctGroups(bundle.symbols, IdOfSymbol) && DistinctGroups(bundle.dependencies, IdOfDependency)
  {
    var bundle := DeckBundle(sourceId, ids);
    forall i, j | 0 <= i < j < |bundle.symbols|
      ensures GroupsDiffer(bundle.symbols, IdOfSymbol, i, j)
    {
      DeckIdShape(ids[j - 1]);
    }
    forall i, j | 0 <= i < j < |ids|
      ensures GroupsDiffer(bundle.dependencies, IdOfDependency, i, j)
    {
      if IncidenceOf(ids[i]).id == IncidenceOf(ids[j]).id {
        IncidenceIsInjective(ids[i], ids[j]);
        assert false;
      }
    }
  }

  lemma EveryEndIsThere(sourceId: string, ids: seq<string>)
    requires AllDeckIds(ids)
    ensures AllJoin(DeckBundle(sourceId, ids).symbols, DeckBundle(sourceId, ids).dependencies)
  {
    var bundle := DeckBundle(sourceId, ids);
    forall d | d in bundle.dependencies
      ensures Joins(bundle.symbols, d)
    {
      var i :| 0 <= i < |ids| && bundle.dependencies[i] == d;
      DeckIdShape(ids[i]);
      assert bundle.symbols[0].id == ROOT && bundle.symbols[i + 1].id == ids[i];
      assert bundle.symbols[0] in bundle.symbols && bundle.symbols[i + 1] in bundle.symbols;
    }
  }

  ghost predicate ShortEnough(ids: seq<string>) {
    forall id :: id in ids ==> |id| <= LONGEST_ID
  }

  /** Of all that the validation checks, only the length of an id can refuse the bundle of a deck. */
  lemma RefusedForLengthOnly(sourceId: string, ids: seq<string>)
    requires SafeId(sourceId) && AllDeckIds(ids)
    ensures IsValid(DeckBundle(sourceId, ids)) <==> ShortEnough(ids)
  {
    IdsDistinct(sourceId, ids);
    EveryEndIsThere(sourceId, ids);
    if ShortEnough(ids) {
      ShortSymbolsFit(sourceId, ids);
      ShortDependenciesFit(sourceId, ids);
    } else {
      var i :| 0 <= i < |ids| && |ids[i]| > LONGEST_ID;
      IncidenceFits(ids[i]);
      assert DeckBundle(sourceId, ids).dependencies[i] in DeckBundle(sourceId, ids).dependencies;
    }
  }

  lemma ShortSymbolsFit(sourceId: string, ids: seq<string>)
    requires SafeId(sourceId) && AllDeckIds(ids) && ShortEnough(ids)
    ensures forall s :: s in DeckBundle(sourceId, ids).symbols ==> SymbolFits(s)
  {
    var bundle := DeckBundle(sourceId, ids);
    WordsAreSafe();
    SafeIsTrimmed(sourceId);
    forall s | s in bundle.symbols
      ensures SymbolFits(s)
    {
      var k :| 0 <= k < |bundle.symbols| && bundle.symbols[k] == s;
      if k > 0 { ComponentFits(ids[k - 1]); }
    }
  }

  lemma ShortDependenciesFit(sourceId: string, ids: seq<string>)
    requires AllDeckIds(ids) && ShortEnough(ids)
    ensures forall d :: d in DeckBundle(sourceId, ids).dependencies ==> DependencyFits(d)
  {
    var bundle := DeckBundle(sourceId, ids);
    forall d | d in bundle.dependencies
      ensures DependencyFits(d)
    {
      var k :| 0 <= k < |bundle.dependencies| && bundle.dependencies[k] == d;
      IncidenceFits(ids[k]);
    }
  }

  // ----------------------------------------------------------- the analysis

  /** The input is refused, or the text is analysed to a rejected or to a passed bundle. */
  datatype Analysis = Throws | Rejected | Passed(bundle: Bundle)

  function IdsOfDeck(text: string): seq<string> {
    CalculixDeck.NamedIds(CalculixDeck.Relevant(Split(text, '\n')))
  }

  /** The root, named after the source, or a component whose name stands behind the colon of a named id. */
  ghost predicate IsSymbolOf(s: Symbol, sourceId: string, ids: seq<string>) {
    || s == Symbol("deck:root", Artifact, sourceId)
    || (s.kind == Component && s.id in ids && exists category :: IsIdOf(s.id, category, s.name))
  }

  /** The incidence that leads from a named id to the root. */
  ghost predicate IsDependencyOf(d: Dependency, ids: seq<string>) {
    d.fromSymbolId in ids && d.toSymbolId == "deck:root" && d.kind == StructuralIncidence
    && d.id == "incidence:" + d.fromSymbolId + ":deck:root"
  }

  /** The root and the named ids, an incidence for each of these, both in the order of their ids, and nothing twice. */
  ghost predicate IsBundleOf(bundle: Bundle, sourceId: string, ids: seq<string>) {
    && bundle.sourceId == sourceId
    && (forall s :: s in bundle.symbols <==> IsSymbolOf(s, sourceId, ids))
    && (forall d :: d in bundle.dependencies <==> IsDependencyOf(d, ids))
    && StrictlySorted(Ids(bundle.symbols)) && StrictlySorted(DependencyIds(bundle.dependencies))
  }

  lemma ComponentIff(s: Symbol, id: string)
    requires IsDeckId(id)
    ensures s == ComponentOf(id) <==> s.kind == Component && s.id == id && exists category :: IsIdOf(s.id, category, s.name)
  {
    var category, name :| IsIdOf(id, category, name);
    NameBehindColon(id, category, name);
    if s.id == id && exists other :: IsIdOf(id, other, s.name) {
      var other :| IsIdOf(id, other, s.name);
      NameBehindColon(id, other, s.name);
    }
  }

  lemma IncidenceText(id: string)
    ensures IncidenceOf(id).id == "incidence:" + id + ":deck:root"
  {
    Regroup("incidence:" + id, ":", "deck:root");
  }

  lemma BundleSymbols(sourceId: string, ids: seq<string>, s: Symbol)
    requires AllDeckIds(ids)
    ensures s in DeckBundle(sourceId, ids).symbols <==> IsSymbolOf(s, sourceId, ids)
  {
    var symbols := DeckBundle(sourceId, ids).symbols;
    if s in symbols {
      var k :| 0 <= k < |symbols| && symbols[k] == s;
      if k > 0 { ComponentIff(s, ids[k - 1]); }
    }
    if s.id in ids && s.kind == Component && exists category :: IsIdOf(s.id, category, s.name) {
      var k :| 0 <= k < |ids| && ids[k] == s.id;
      ComponentIff(s, ids[k]);
      assert symbols[k + 1] == s;
    }
    assert symbols[0] == Symbol(ROOT, Artifact, sourceId);
  }

  lemma BundleDependencies(sourceId: string, ids: seq<string>, d: Dependency)
    ensures d in DeckBundle(sourceId, ids).dependencies <==> IsDependencyOf(d, ids)
  {
    var dependencies := DeckBundle(sourceId, ids).dependencies;
    if d in dependencies {
      var k :| 0 <= k < |dependencies| && dependencies[k] == d;
      IncidenceText(ids[k]);
    }
    if IsDependencyOf(d, ids) {
      var k :| 0 <= k < |ids| && ids[k] == d.fromSymbolId;
      IncidenceText(ids[k]);
      assert dependencies[k] == d;
    }
  }

  /** What the bundle of a deck lists. */
  lemma BundleIsOfDeck(sourceId: string, ids: seq<string>)
    requires AllDeckIds(ids) && IsValid(DeckBundle(sourceId, ids))
    ensures IsBundleOf(InIdOrder(DeckBundle(sourceId, ids)), sourceId, ids)
  {
    var bundle := DeckBundle(sourceId, ids);
    SameMembers(bundle.symbols, SymbolLe);
    SameMembers(bundle.dependencies, DependencyLe);
    forall s
      ensures s in InIdOrder(bundle).symbols <==> IsSymbolOf(s, sourceId, ids)
    {
      BundleSymbols(sourceId, ids, s);
    }
    forall d
      ensures d in InIdOrder(bundle).dependencies <==> IsDependencyOf(d, ids)
    {
      BundleDependencies(sourceId, ids, d);
    }
    IdsStrictlySorted(bundle);
    DependenciesStrictlySorted(bundle);
  }

  lemma SameIds(bundle: Bundle, sourceId: string, ids: seq<string>, same: seq<string>)
    requires IsBundleOf(bundle, sourceId, ids) && forall id :: id in ids <==> id in same
    ensures IsBundleOf(bundle, sourceId, same)
  {
    assert forall s :: IsSymbolOf(s, sourceId, ids) <==> IsSymbolOf(s, sourceId, same);
    assert forall d :: IsDependencyOf(d, ids) <==> IsDependencyOf(d, same);
  }

  /** Passes exactly the decks whose ids leave room for the words around them; the bundle lists each named id once,
      with its incidence, in the order of the ids. */
  method Analyze(sourceId: string, text: string, upper: string -> string) returns (r: Analysis)
    ensures r.Throws? <==> !SafeId(sourceId) || text == ""
    ensures !r.Throws? ==> (r.Passed? <==> CalculixDeck.IsCalculixDeck(text, upper) && ShortEnough(IdsOfDeck(text)))
    ensures r.Passed? ==> IsBundleOf(r.bundle, sourceId, IdsOfDeck(text))
  {
    if !SafeId(sourceId) || text == "" { return Throws; }
    var ids := CalculixDeck.ParseCalculix(text, upper);
    if ids.None? { return Rejected; }
    NamedShape(CalculixDeck.Relevant(Split(text, '\n')));
    CalculixDeck.EachIdOnce(IdsOfDeck(text));
    RefusedForLengthOnly(sourceId, ids.value);
    var bundle := Validate(DeckBundle(sourceId, ids.value));
    if bundle.None? { return Rejected; }
    BundleIsOfDeck(sourceId, ids.value);
    SameIds(bundle.value, sourceId, ids.value, IdsOfDeck(text));
    return Passed(bundle.value);
  }
}
