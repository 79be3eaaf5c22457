/** Which tracked file a code reference means: by its path, or by its base name if that is unambiguous. */
module CodeReferences {
  import opened Text
  import opened StableSort
  import opened RepoPaths

  /** `path.slice(path.lastIndexOf("/") + 1)` */
  function BaseName(path: string): string {
    if '/' in path then path[LastIndexOf(path, '/') + 1..] else path
  }

  /** The base name is the last segment of the path. */
  lemma BaseNameIsLastSegment(path: string)
    ensures var segments := Split(path, '/'); BaseName(path) == segments[|segments| - 1]
  {
    if '/' in path {
      var i := LastIndexOf(path, '/');
      assert path == path[..i] + ['/'] + path[i + 1..];
      SplitAppend(path[..i], path[i + 1..], '/');
      SplitPlain(path[i + 1..], '/');
    } else {
      SplitPlain(path, '/');
    }
  }

  /** The files with a base name, in the order of the list. */
  function WithBase(paths: seq<string>, base: string): seq<string> {
    Filter(paths, InGroup(BaseName, base))
  }

  function PathLe(a: string, b: string): bool { AtMost(a, b) }

  /** The index lists the files of each base name that occurs, sorted. */
  ghost predicate IsIndex(index: map<string, seq<string>>, paths: seq<string>) {
    forall base :: if base in index then index[base] == Sort(WithBase(paths, base), PathLe) && index[base] != []
                   else WithBase(paths, base) == []
  }

  ghost predicate Lists(lists: map<string, seq<string>>, paths: seq<string>) {
    forall base :: ListsBase(lists, paths, base)
  }

  ghost predicate ListsBase(lists: map<string, seq<string>>, paths: seq<string>, base: string) {
    WithBase(paths, base) == if base in lists then lists[base] else []
  }

  lemma WithBaseNext(paths: seq<string>, path: string, base: string)
    ensures WithBase(paths + [path], base) == if BaseName(path) == base then WithBase(paths, base) + [path] else WithBase(paths, base)
  {
    var p := InGroup(BaseName, base);
    FilterAppend(paths, [path], p);
    FilterCons(path, [], p);
    assert p(path) <==> BaseName(path) == base;
    assert [path] + [] == [path] && WithBase(paths, base) + [] == WithBase(paths, base);
  }

  lemma ListsNext(lists: map<string, seq<string>>, paths: seq<string>, path: string)
    requires Lists(lists, paths)
    ensures var base := BaseName(path);
            Lists(lists[base := if base in lists then lists[base] + [path] else [path]], paths + [path])
  {
    var base, more := BaseName(path), paths + [path];
    var after := lists[base := if base in lists then lists[base] + [path] else [path]];
    forall other
      ensures ListsBase(after, more, other)
    {
      WithBaseNext(paths, path, other);
      assert ListsBase(lists, paths, other);
    }
  }

  method IndexByBasename(paths: seq<string>) returns (index: map<string, seq<string>>)
    ensures IsIndex(index, paths)
  {
    var lists: map<string, seq<string>> := map[];
    for i := 0 to |paths|
      invariant Lists(lists, paths[..i]) && forall base :: base in lists ==> lists[base] != []
    {
      var path := paths[i];
      var base := BaseName(path);
      ListsNext(lists, paths[..i], path);
      lists := lists[base := if base in lists then lists[base] + [path] else [path]];
      assert paths[..i + 1] == paths[..i] + [path];
    }
    assert paths[..|paths|] == paths;
    index := map base | base in lists :: Sort(lists[base], PathLe);
    forall base
      ensures ListsBase(lists, paths, base) && (base in index ==> index[base] != [])
    {
      if base in lists {
        SortMultiset(lists[base], PathLe);
        assert |multiset(index[base])| == |multiset(lists[base])|;
      }
    }
  }

  datatype Resolution = Escaped | Missing | Ambiguous(candidates: seq<string>) | Resolved(path: string)

  /** What a reference means, given the tracked files and those that may be named by their base name alone. */
  ghost predicate Means(path: string, named: seq<string>, files: set<string>, r: Resolution) {
    var normal, matches := Normalized(path), WithBase(named, path);
    match r
    case Escaped => '/' in path && normal.None?
    case Missing => if '/' in path then normal.Some? && normal.value !in files else matches == []
    case Ambiguous(candidates) => '/' !in path && |matches| > 1 && candidates == Sort(matches, PathLe)
    case Resolved(file) => if '/' in path then normal == Some(file) && file in files else matches == [file]
  }

  method ResolveCodeRefPath(path: string, index: map<string, seq<string>>, files: set<string>, ghost named: seq<string>)
    returns (r: Resolution)
    requires IsIndex(index, named)
    ensures Means(path, named, files, r)
  {
    if '/' in path {
      var normalized := NormalizeRepoPath(path);
      if normalized.None? { return Escaped; }
      if normalized.value !in files { return Missing; }
      return Resolved(normalized.value);
    }
    var matches := if path in index then index[path] else [];
    SortMultiset(WithBase(named, path), PathLe);
    SameLength(WithBase(named, path), Sort(WithBase(named, path), PathLe));
    if |matches| == 0 { return Missing; }
    if |matches| > 1 { return Ambiguous(matches); }
    return Resolved(matches[0]);
  }

  lemma SameLength<T>(a: seq<T>, b: seq<T>)
    requires multiset(a) == multiset(b)
    ensures |a| == |b| && (|a| == 1 ==> a == b)
  {
    assert |multiset(a)| == |a| && |multiset(b)| == |b|;
    if |a| == 1 {
      assert a[0] in multiset(b);
    }
  }

  /** A reference has one meaning; without a slash it resolves exactly if one file alone has that base name. */
  lemma OneMeaning(path: string, named: seq<string>, files: set<string>, a: Resolution, b: Resolution)
    requires Means(path, named, files, a) && Means(path, named, files, b)
    ensures a == b
    ensures '/' !in path ==> (a.Resolved? <==> |WithBase(named, path)| == 1)
  {
  }
}
