/** Repository paths: the segment walk shared by code references and document links. */
module RepoPaths {
  import opened Text

  /** `/^[A-Za-z]:[\\/]/` */
  predicate IsDrive(target: string) {
    && |target| >= 3 && IsLetter(target[0])
    && target[1] == ':' && (target[2] == '\\' || target[2] == '/')
  }

  predicate IsAbsolute(target: string) {
    (target != "" && target[0] == '/') || IsDrive(target)
  }

  predicate IsIgnored(segment: string) { segment == "" || segment == "." }

  predicate IsUp(segment: string) { segment == ".." }

  predicate IsName(segment: string) { !IsIgnored(segment) && !IsUp(segment) }

  // ------------------------------------------------------- the directory tree

  /** Where following the segments from the repository root leads; nowhere if that leaves the root. */
  function Walk(segments: seq<string>): Option<seq<string>> {
    if segments == [] then Some([])
    else
      var before, last := Walk(segments[..|segments| - 1]), segments[|segments| - 1];
      if before.None? then None
      else if IsIgnored(last) then before
      else if !IsUp(last) then Some(before.value + [last])
      else if before.value == [] then None
      else Some(before.value[..|before.value| - 1])
  }

  /** How many more names than `..` a list of segments holds. */
  function Depth(segments: seq<string>): int {
    if segments == [] then 0
    else
      var last := segments[|segments| - 1];
      Depth(segments[..|segments| - 1]) + if IsIgnored(last) then 0 else if IsUp(last) then -1 else 1
  }

  predicate Below(segments: seq<string>, k: nat)
    requires k <= |segments|
  {
    Depth(segments[..k]) < 0
  }

  lemma Prefixes(segments: seq<string>, k: nat)
    requires segments != [] && k < |segments|
    ensures segments[..|segments| - 1][..k] == segments[..k]
  {
  }

  /** A path is rejected exactly when some prefix of its segments has more `..` than names. */
  lemma {:induction false} RejectedIffBelowRoot(segments: seq<string>)
    ensures Walk(segments).None? <==> exists k :: 0 <= k <= |segments| && Below(segments, k)
    ensures Walk(segments).Some? ==> |Walk(segments).value| == Depth(segments)
  {
    if segments == [] {
      assert segments[..0] == [];
    } else {
      var init := segments[..|segments| - 1];
      RejectedIffBelowRoot(init);
      assert segments[..|segments|] == segments;
      if Walk(init).None? {
        var k :| 0 <= k <= |init| && Below(init, k);
        Prefixes(segments, k);
        assert Below(segments, k);
      } else {
        forall k | 0 <= k < |segments|
          ensures !Below(segments, k)
        {
          Prefixes(segments, k);
          assert !Below(init, k);
        }
        assert Below(segments, |segments|) <==> Depth(segments) < 0;
      }
    }
  }

  /** Segment `i` enters the directory at depth `d`, which the rest of the path does not leave. */
  ghost predicate Survives(segments: seq<string>, i: nat, d: nat)
    requires i < |segments|
  {
    Depth(segments[..i]) == d && forall k :: i < k <= |segments| ==> DeeperThan(segments, k, d)
  }

  predicate DeeperThan(segments: seq<string>, k: nat, d: nat)
    requires k <= |segments|
  {
    Depth(segments[..k]) > d
  }

  lemma SurvivesBefore(segments: seq<string>, i: nat, d: nat)
    requires segments != [] && i < |segments| - 1 && Depth(segments) > d
    ensures Survives(segments, i, d) <==> Survives(segments[..|segments| - 1], i, d)
  {
    var init := segments[..|segments| - 1];
    Prefixes(segments, i);
    EndIsDeeper(segments, d);
    forall k | i < k <= |init|
      ensures DeeperThan(segments, k, d) <==> DeeperThan(init, k, d)
    {
      DeeperBefore(segments, k, d);
    }
    if Survives(init, i, d) {
      forall k | i < k <= |segments|
        ensures DeeperThan(segments, k, d)
      {
        assert k <= |init| ==> DeeperThan(init, k, d);
      }
    }
  }

  lemma DeeperBefore(segments: seq<string>, k: nat, d: nat)
    requires segments != [] && k < |segments|
    ensures DeeperThan(segments, k, d) <==> DeeperThan(segments[..|segments| - 1], k, d)
  {
    Prefixes(segments, k);
  }

  lemma EndIsDeeper(segments: seq<string>, d: nat)
    requires Depth(segments) > d
    ensures DeeperThan(segments, |segments|, d)
  {
    assert segments[..|segments|] == segments;
  }

  /** The last way down to depth `d + 1` is the name that the result holds at `d`. */
  lemma {:induction false} SurvivorIsKept(segments: seq<string>, i: nat, d: nat)
    requires Walk(segments).Some? && i < |segments| && Survives(segments, i, d)
    ensures d < |Walk(segments).value| && Walk(segments).value[d] == segments[i] && IsName(segments[i])
  {
    var init, last := segments[..|segments| - 1], segments[|segments| - 1];
    assert segments[..|segments|] == segments;
    assert DeeperThan(segments, |segments|, d);
    RejectedIffBelowRoot(segments);
    RejectedIffBelowRoot(init);
    if i < |init| {
      SurvivesBefore(segments, i, d);
      SurvivorIsKept(init, i, d);
    }
  }

  /** Every directory of the result is entered by a segment. */
  lemma {:induction false} SurvivorExists(segments: seq<string>, d: nat) returns (i: nat)
    requires Walk(segments).Some? && d < |Walk(segments).value|
    ensures i < |segments| && Survives(segments, i, d)
  {
    var init, last := segments[..|segments| - 1], segments[|segments| - 1];
    RejectedIffBelowRoot(segments);
    RejectedIffBelowRoot(init);
    if d < |Walk(init).value| {
      i := SurvivorExists(init, d);
      SurvivesBefore(segments, i, d);
    } else {
      i := |init|;
      assert segments[..|segments|] == segments;
      forall k | i < k <= |segments|
        ensures DeeperThan(segments, k, d)
      {
      }
    }
  }

  /** The segments of a result are names: none is empty, `.` or `..`. */
  lemma {:induction false} OnlyNamesRemain(segments: seq<string>, d: nat)
    requires Walk(segments).Some? && d < |Walk(segments).value|
    ensures IsName(Walk(segments).value[d]) && Walk(segments).value[d] in segments
  {
    var i := SurvivorExists(segments, d);
    SurvivorIsKept(segments, i, d);
  }

  lemma {:induction false} NamesStay(names: seq<string>)
    requires forall i :: 0 <= i < |names| ==> IsName(names[i])
    ensures Walk(names) == Some(names)
  {
    if names != [] {
      NamesStay(names[..|names| - 1]);
      assert names == names[..|names| - 1] + [names[|names| - 1]];
    }
  }

  /** A second pass over the segments of a result changes nothing. */
  lemma WalkIsStable(segments: seq<string>)
    requires Walk(segments).Some?
    ensures Walk(Walk(segments).value) == Walk(segments)
  {
    forall d | 0 <= d < |Walk(segments).value|
      ensures IsName(Walk(segments).value[d])
    {
      OnlyNamesRemain(segments, d);
    }
    NamesStay(Walk(segments).value);
  }

  /** A walk may stop anywhere on its way and continue from the directory reached. */
  lemma {:induction false} WalkOn(a: seq<string>, b: seq<string>)
    ensures Walk(a + b) == if Walk(a).None? then None else Walk(Walk(a).value + b)
    decreases |b|
  {
    if b == [] {
      assert a + b == a;
      if Walk(a).Some? {
        assert Walk(a).value + b == Walk(a).value;
        WalkIsStable(a);
      }
    } else {
      var init := b[..|b| - 1];
      WalkOn(a, init);
      assert (a + b)[..|a + b| - 1] == a + init;
      if Walk(a).Some? {
        var reached := Walk(a).value + b;
        assert reached[..|reached| - 1] == Walk(a).value + init;
      }
    }
  }

  // --------------------------------------------------------------- the loop

  /** The stack walk of both scripts. */
  method WalkSegments(segments: seq<string>) returns (r: Option<seq<string>>)
    ensures r == Walk(segments)
  {
    var normalized: seq<string> := [];
    for i := 0 to |segments|
      invariant Walk(segments[..i]) == Some(normalized)
    {
      var segment := segments[i];
      assert segments[..i + 1][..i] == segments[..i];
      if segment == "" || segment == "." { continue; }
      if segment == ".." {
        if |normalized| == 0 {
          RejectedStays(segments, i + 1);
          return None;
        }
        normalized := normalized[..|normalized| - 1];
        continue;
      }
      normalized := normalized + [segment];
    }
    assert segments[..|segments|] == segments;
    return Some(normalized);
  }

  lemma RejectedStays(segments: seq<string>, k: nat)
    requires k <= |segments| && Walk(segments[..k]).None?
    ensures Walk(segments).None?
  {
    assert segments == segments[..k] + segments[k..];
    WalkOn(segments[..k], segments[k..]);
  }

  function Resolved(segments: seq<string>): Option<string> {
    var r := Walk(segments);
    if r.None? then None else Some(Join(r.value, '/'))
  }

  function Normalized(target: string): Option<string> {
    if IsAbsolute(target) then None else Resolved(Split(target, '/'))
  }

  method NormalizeRepoPath(target: string) returns (r: Option<string>)
    ensures r == Normalized(target)
  {
    if IsAbsolute(target) { return None; }
    var normalized := WalkSegments(Split(target, '/'));
    if normalized.None? { return None; }
    return Some(Join(normalized.value, '/'));
  }

  lemma ResultSegments(segments: seq<string>)
    requires Walk(segments).Some? && forall i :: 0 <= i < |segments| ==> '/' !in segments[i]
    ensures Walk(Split(Join(Walk(segments).value, '/'), '/')) == Walk(segments)
    ensures var r := Join(Walk(segments).value, '/'); r == "" || r[0] != '/'
  {
    var names := Walk(segments).value;
    if names == [] {
      assert Split("", '/') == [""] && [""][..0] == [];
      assert Walk([""][..0]) == Some([]);
    } else {
      ResultNames(segments);
      SplitJoin(names, '/');
      WalkIsStable(segments);
      assert Join(names, '/')[0] == names[0][0];
    }
  }

  /** As the first of `count` segments, the name makes a path look like a drive path. */
  predicate LooksLikeDrive(name: string, count: int) {
    |name| >= 2 && IsLetter(name[0]) && name[1] == ':' && (if |name| == 2 then count > 1 else name[2] == '\\')
  }

  lemma DriveIffFirst(names: seq<string>)
    requires forall i :: 0 <= i < |names| ==> IsName(names[i]) && '/' !in names[i]
    ensures IsDrive(Join(names, '/')) <==> names != [] && LooksLikeDrive(names[0], |names|)
  {
    if names != [] {
      JoinStarts(names);
      assert |names[0]| >= 3 ==> names[0][2] in names[0];
    }
  }

  /** The first name stands first, and a slash follows it if there are more. */
  lemma JoinStarts(names: seq<string>)
    requires names != []
    ensures names[0] <= Join(names, '/')
    ensures if |names| == 1 then Join(names, '/') == names[0]
            else |Join(names, '/')| > |names[0]| && Join(names, '/')[|names[0]|] == '/' && |Join(names, '/')| > |names[0]|
    ensures |names| > 1 && |names[1]| > 0 ==> |Join(names, '/')| > |names[0]| + 1
  {
    if |names| > 1 {
      Regroup(names[0], ['/'], Join(names[1..], '/'));
    }
  }

  /** The name that the path enters last from the root, and never leaves, makes it look like a drive path. */
  ghost predicate ComesToADrive(segments: seq<string>) {
    exists i :: 0 <= i < |segments| && IsDriveEntry(segments, i)
  }

  ghost predicate IsDriveEntry(segments: seq<string>, i: nat)
    requires i < |segments|
  {
    Survives(segments, i, 0) && LooksLikeDrive(segments[i], Depth(segments))
  }

  lemma ResultNames(segments: seq<string>)
    requires Walk(segments).Some? && forall i :: 0 <= i < |segments| ==> '/' !in segments[i]
    ensures forall d :: 0 <= d < |Walk(segments).value| ==> IsName(Walk(segments).value[d]) && '/' !in Walk(segments).value[d]
  {
    forall d | 0 <= d < |Walk(segments).value|
      ensures IsName(Walk(segments).value[d]) && '/' !in Walk(segments).value[d]
    {
      OnlyNamesRemain(segments, d);
    }
  }

  lemma DriveIffEntry(segments: seq<string>)
    requires Walk(segments).Some? && forall i :: 0 <= i < |segments| ==> '/' !in segments[i]
    ensures IsDrive(Join(Walk(segments).value, '/')) <==> ComesToADrive(segments)
  {
    var names := Walk(segments).value;
    ResultNames(segments);
    DriveIffFirst(names);
    RejectedIffBelowRoot(segments);
    if names != [] {
      var i := SurvivorExists(segments, 0);
      SurvivorIsKept(segments, i, 0);
      assert IsDriveEntry(segments, i) <==> LooksLikeDrive(names[0], |names|);
    }
    if i :| 0 <= i < |segments| && IsDriveEntry(segments, i) {
      SurvivorIsKept(segments, i, 0);
    }
  }

  /** Normalising a normalised path gives it back unless the path comes to look like a drive path; then it is refused. */
  lemma NormalizedTwice(target: string)
    requires Normalized(target).Some?
    ensures Normalized(Normalized(target).value) == Normalized(target) <==> !ComesToADrive(Split(target, '/'))
    ensures ComesToADrive(Split(target, '/')) ==> Normalized(Normalized(target).value).None?
  {
    SplitParts(target, '/');
    ResultSegments(Split(target, '/'));
    DriveIffEntry(Split(target, '/'));
  }

  const HIDDEN_DRIVE := "./C:/x"

  lemma HiddenDriveSegments()
    ensures Split(HIDDEN_DRIVE, '/') == ["."] + ["C:", "x"]
  {
    var tail := "C:/x";
    assert HIDDEN_DRIVE == "." + ['/'] + tail && tail == "C:" + ['/'] + "x";
    SplitAppend(".", tail, '/');
    SplitAppend("C:", "x", '/');
    SplitPlain(".", '/');
    SplitPlain("C:", '/');
    SplitPlain("x", '/');
  }

  /** A dot segment hides a drive prefix from the guard. */
  lemma NormalizedOnceOnly()
    ensures Normalized(HIDDEN_DRIVE) == Some("C:/x") && Normalized("C:/x").None?
  {
    HiddenDriveSegments();
    HiddenDriveNames();
    DriveText();
    assert !IsAbsolute(HIDDEN_DRIVE);
  }

  lemma DriveText()
    ensures Join(["C:", "x"], '/') == "C:/x" && IsAbsolute("C:/x")
  {
    JoinCons("C:", ["x"], '/');
    assert ["C:"] + ["x"] == ["C:", "x"] && "C:" + ['/'] + "x" == "C:/x";
  }

  lemma HiddenDriveNames()
    ensures Walk(["."] + ["C:", "x"]) == Some(["C:", "x"])
  {
    var names := ["C:", "x"];
    NamesStay(names);
    WalkOn(["."], names);
    assert ["."][..0] == [] && [] + names == names;
  }

  // ------------------------------------------------------------------- links

  /** `text.lastIndexOf(c)` of a character that occurs. */
  function LastIndexOf(text: string, c: char): (i: nat)
    requires c in text
    ensures i < |text| && text[i] == c && c !in text[i + 1..]
  {
    if text[|text| - 1] == c then |text| - 1
    else
      var init := text[..|text| - 1];
      assert text == init + [text[|text| - 1]];
      var i := LastIndexOf(init, c);
      assert text[i + 1..] == init[i + 1..] + [text[|text| - 1]];
      i
  }

  function SourceDirectory(source: string): string {
    if '/' in source then source[..LastIndexOf(source, '/')] else ""
  }

  /** Where a link leads: from the directory of its source, or, if it is empty, to the source itself. */
  function LinkTarget(source: string, target: string): Option<string> {
    if IsAbsolute(target) then None
    else Resolved(LinkSegments(source, target))
  }

  function LinkSegments(source: string, target: string): seq<string> {
    if target == "" then Split(source, '/') else DirectorySegments(source) + Split(target, '/')
  }

  method ResolveTrackedPath(source: string, target: string) returns (r: Option<string>)
    ensures r == LinkTarget(source, target)
  {
    if IsAbsolute(target) { return None; }
    var sourceDirectory := SourceDirectory(source);
    var segments := if target == "" then Split(source, '/') else Split(sourceDirectory + "/" + target, '/');
    if target != "" {
      FromDirectory(source, target);
    }
    var normalized := WalkSegments(segments);
    if normalized.None? { return None; }
    return Some(Join(normalized.value, '/'));
  }

  /** The segments of the file's path without the last one, the file's own name. */
  function DirectorySegments(source: string): seq<string> {
    var segments := Split(source, '/');
    segments[..|segments| - 1]
  }

  /** Resolving against the directory text is the walk of the directory's segments and then the target's. */
  lemma FromDirectory(source: string, target: string)
    ensures Walk(Split(SourceDirectory(source) + "/" + target, '/')) == Walk(DirectorySegments(source) + Split(target, '/'))
  {
    SplitAppend(SourceDirectory(source), target, '/');
    if '/' in source {
      DirectoryIsSplit(source);
    } else {
      SplitPlain(source, '/');
      FromRoot(Split(target, '/'));
    }
  }

  lemma DirectoryIsSplit(source: string)
    requires '/' in source
    ensures Split(SourceDirectory(source), '/') == DirectorySegments(source)
  {
    var i := LastIndexOf(source, '/');
    assert source == source[..i] + ['/'] + source[i + 1..];
    SplitAppend(source[..i], source[i + 1..], '/');
    SplitPlain(source[i + 1..], '/');
  }

  lemma FromRoot(segments: seq<string>)
    ensures Split("", '/') == [""] && Walk([""] + segments) == Walk([] + segments)
  {
    assert [""][..0] == [] && [] + segments == segments;
    WalkOn([""], segments);
  }

  // ------------------------------------------- links and code references

  /** The code reference that spells out the directory of the source. */
  function Spelled(source: string, target: string): string {
    if '/' in source then SourceDirectory(source) + "/" + target else target
  }

  /** The walk of the segments leaves the root. */
  ghost predicate LeavesRoot(segments: seq<string>) {
    exists k :: 0 <= k <= |segments| && Below(segments, k)
  }

  /** When link and spelled-out code reference mean the same. At the root of the repository only an empty link does not;
      elsewhere an absolute link is refused although its spelled-out form may not be, an empty link leads to the file
      and not to its directory, and an absolute source makes the spelled-out form absolute. */
  ghost predicate MeanTheSame(source: string, target: string) {
    if '/' !in source then target != "" || IsIgnored(source)
    else if IsAbsolute(source) then IsAbsolute(target) || LeavesRoot(LinkSegments(source, target))
    else if IsAbsolute(target) then LeavesRoot(LinkSegments(source, target))
    else if target == "" then IsIgnored(FileSegment(source)) || LeavesRoot(DirectorySegments(source))
    else true
  }

  function FileSegment(source: string): string {
    var segments := Split(source, '/');
    segments[|segments| - 1]
  }

  lemma SpelledIsAbsolute(source: string, target: string)
    requires '/' in source
    ensures IsAbsolute(Spelled(source, target)) <==> IsAbsolute(source)
  {
    var n := LastIndexOf(source, '/');
    assert source[..n + 1] == source[..n] + "/";
    assert Spelled(source, target) == source[..n + 1] + target;
    assert source == source[..n + 1] + source[n + 1..];
    assert n == 0 ==> source[0] == '/';
    assert n == 1 ==> source[1] == '/' && Spelled(source, target)[1] == '/';
    assert n >= 2 ==> source[..3] == Spelled(source, target)[..3];
  }

  lemma SpelledSegments(source: string, target: string)
    requires '/' in source
    ensures Resolved(Split(Spelled(source, target), '/')) == Resolved(DirectorySegments(source) + Split(target, '/'))
  {
    FromDirectory(source, target);
  }

  lemma EmptyLinkSegments(source: string)
    ensures Split(source, '/') == DirectorySegments(source) + [FileSegment(source)]
    ensures Walk(DirectorySegments(source) + Split("", '/')) == Walk(DirectorySegments(source))
  {
    var directory := DirectorySegments(source);
    assert Split("", '/') == [""] && (directory + [""])[..|directory|] == directory;
  }

  /** A step into the file leads elsewhere, unless it is no step or the directory cannot be reached. */
  lemma LastStep(directory: seq<string>, file: string)
    ensures Walk(directory + [file]) == Walk(directory) <==> IsIgnored(file) || Walk(directory).None?
  {
    assert (directory + [file])[..|directory|] == directory;
    if Walk(directory).Some? {
      assert |Walk(directory).value + [file]| != |Walk(directory).value|;
    }
  }

  /** Different results have different texts. */
  lemma ResolvedIsInjective(a: seq<string>, b: seq<string>)
    requires forall i :: 0 <= i < |a| ==> '/' !in a[i]
    requires forall i :: 0 <= i < |b| ==> '/' !in b[i]
    ensures Resolved(a) == Resolved(b) <==> Walk(a) == Walk(b)
  {
    if Walk(a).Some? { ResultSegments(a); }
    if Walk(b).Some? { ResultSegments(b); }
  }

  lemma DirectoryParts(source: string)
    ensures forall i :: 0 <= i < |DirectorySegments(source)| ==> '/' !in DirectorySegments(source)[i]
    ensures '/' !in FileSegment(source)
  {
    SplitParts(source, '/');
  }

  lemma EmptyLinkDecides(directory: seq<string>, file: string)
    requires (forall i :: 0 <= i < |directory| ==> '/' !in directory[i]) && '/' !in file
    ensures Resolved(directory + [file]) == Resolved(directory) <==> IsIgnored(file) || LeavesRoot(directory)
  {
    LastStep(directory, file);
    ResolvedIsInjective(directory + [file], directory);
    RejectedIffBelowRoot(directory);
  }

  lemma EmptyLink(source: string)
    requires '/' in source && !IsAbsolute(source)
    ensures LinkTarget(source, "") == Normalized(Spelled(source, "")) <==> MeanTheSame(source, "")
  {
    SpelledIsAbsolute(source, "");
    SpelledSegments(source, "");
    EmptyLinkSegments(source);
    DirectoryParts(source);
    EmptyLinkDecides(DirectorySegments(source), FileSegment(source));
  }

  lemma RootIsNotLeft()
    ensures !LeavesRoot([]) && Resolved([""]) == Resolved([])
  {
    assert !Below([], 0) && [""][..0] == [];
  }

  lemma RootLink(source: string, target: string)
    requires '/' !in source
    ensures LinkTarget(source, target) == Normalized(Spelled(source, target)) <==> MeanTheSame(source, target)
  {
    SplitPlain(source, '/');
    if target == "" {
      assert Split("", '/') == [""] && [] + [source] == [source];
      RootIsNotLeft();
      EmptyLinkDecides([], source);
    } else {
      assert DirectorySegments(source) == [] && [] + Split(target, '/') == Split(target, '/');
    }
  }

  /** A link resolves like the code reference that spells out the directory of its source, exactly in these cases. */
  lemma LinkIsCodeReference(source: string, target: string)
    ensures LinkTarget(source, target) == Normalized(Spelled(source, target)) <==> MeanTheSame(source, target)
  {
    if '/' !in source {
      RootLink(source, target);
    } else if IsAbsolute(source) {
      SpelledIsAbsolute(source, target);
      RejectedIffBelowRoot(LinkSegments(source, target));
    } else if target == "" {
      EmptyLink(source);
    } else {
      SpelledIsAbsolute(source, target);
      SpelledSegments(source, target);
      RejectedIffBelowRoot(LinkSegments(source, target));
    }
  }
}
