/** Strings as the workflow and linker code uses them: ordering, sorting, splitting. */
module Text {

  datatype Option<+T> = None | Some(value: T)

  datatype Result<+T, +E> = Ok(value: T) | Err(error: E)

  predicate IsDigit(c: char) { '0' <= c <= '9' }

  predicate IsLetter(c: char) { 'a' <= c <= 'z' || 'A' <= c <= 'Z' }

  function Power10(digits: nat): nat {
    if digits == 0 then 1 else 10 * Power10(digits - 1)
  }

  // ---------------------------------------------------------------- ordering

  /** The built-in `<` on strings: first differing character decides, a proper prefix is smaller. */
  predicate Less(a: string, b: string) {
    if a == [] then b != []
    else if b == [] then false
    else if a[0] == b[0] then Less(a[1..], b[1..])
    else a[0] < b[0]
  }

  predicate AtMost(a: string, b: string) {
    a == b || Less(a, b)
  }

  /** The texts agree up to `k`, where `a` has the smaller character. */
  ghost predicate IsSmallerAt(a: string, b: string, k: nat) {
    k < |a| && k < |b| && a[..k] == b[..k] && a[k] < b[k]
  }

  /** One text is less than another exactly if it has the smaller character where they first differ, or is a proper prefix. */
  lemma {:induction false} LessIff(a: string, b: string)
    ensures Less(a, b) <==> (exists k: nat :: IsSmallerAt(a, b, k)) || (|a| < |b| && a == b[..|a|])
  {
    if a != [] && b != [] {
      if a[0] == b[0] {
        LessIff(a[1..], b[1..]);
        LessTail(a, b);
      } else {
        assert a[0] < b[0] ==> IsSmallerAt(a, b, 0);
        forall k: nat | IsSmallerAt(a, b, k)
          ensures k == 0
        {
          SmallerBehindStart(a, b, k);
        }
      }
    }
  }

  lemma SmallerBehindStart(a: string, b: string, k: nat)
    requires IsSmallerAt(a, b, k)
    ensures k == 0 || a[0] == b[0]
  {
    if k > 0 { assert a[..k][0] == b[..k][0]; }
  }

  lemma LessTail(a: string, b: string)
    requires a != [] && b != [] && a[0] == b[0]
    ensures (exists k: nat :: IsSmallerAt(a, b, k)) <==> exists k: nat :: IsSmallerAt(a[1..], b[1..], k)
    ensures |a| < |b| && a == b[..|a|] <==> |a[1..]| < |b[1..]| && a[1..] == b[1..][..|a[1..]|]
  {
    if k: nat :| IsSmallerAt(a, b, k) {
      assert a[1..][..k - 1] == a[..k][1..] && b[1..][..k - 1] == b[..k][1..];
      assert IsSmallerAt(a[1..], b[1..], k - 1);
    }
    if k: nat :| IsSmallerAt(a[1..], b[1..], k) {
      assert a[..k + 1] == [a[0]] + a[1..][..k] && b[..k + 1] == [b[0]] + b[1..][..k];
      assert IsSmallerAt(a, b, k + 1);
    }
    assert a == [a[0]] + a[1..] && b == [b[0]] + b[1..];
    if |a| < |b| {
      assert b[..|a|] == [b[0]] + b[1..][..|a| - 1];
      assert b[..|a|][1..] == b[1..][..|a| - 1];
    }
  }

  lemma {:induction false} LessIsAsymmetric(a: string, b: string)
    ensures Less(a, b) ==> !Less(b, a) && a != b
  {
    if a != [] && b != [] && a[0] == b[0] {
      LessIsAsymmetric(a[1..], b[1..]);
    }
  }

  lemma {:induction false} LessIsTransitive(a: string, b: string, c: string)
    requires Less(a, b) && Less(b, c)
    ensures Less(a, c)
  {
    if a != [] && b[0] == a[0] && c[0] == b[0] {
      LessIsTransitive(a[1..], b[1..], c[1..]);
    }
  }

  lemma {:induction false} LessIsTotal(a: string, b: string)
    ensures a == b || Less(a, b) || Less(b, a)
  {
    if a != [] && b != [] && a[0] == b[0] {
      LessIsTotal(a[1..], b[1..]);
      assert a == [a[0]] + a[1..] && b == [b[0]] + b[1..];
    }
  }

  // ----------------------------------------------------------------- sorting

  predicate StrictlySorted(s: seq<string>) {
    forall i, j :: 0 <= i < j < |s| ==> InOrder(s, i, j)
  }

  predicate InOrder(s: seq<string>, i: nat, j: nat)
    requires i < j < |s|
  {
    Less(s[i], s[j])
  }

  function Elements<T>(s: seq<T>): set<T> {
    set x | x in s
  }

  lemma ElementAt<T>(s: seq<T>, i: nat, whole: set<T>)
    requires i < |s| && Elements(s) <= whole
    ensures s[i] in whole
  {
    assert s[i] in Elements(s);
  }

  /** As many elements as places exactly if no two places hold the same. */
  lemma {:induction false} DistinctIffCounted<T>(s: seq<T>)
    ensures |Elements(s)| <= |s|
    ensures |Elements(s)| == |s| <==> forall i, j :: 0 <= i < j < |s| ==> s[i] != s[j]
  {
    if s != [] {
      var init, last := s[..|s| - 1], s[|s| - 1];
      DistinctIffCounted(init);
      assert Elements(s) == Elements(init) + {last};
      if last in init {
        assert Elements(s) == Elements(init);
      } else {
        assert last !in Elements(init);
      }
    }
  }

  lemma {:induction false} SubsetCount<T>(a: set<T>, b: set<T>)
    requires a <= b
    ensures |a| <= |b|
  {
    if a != {} {
      var x :| x in a;
      SubsetCount(a - {x}, b - {x});
    }
  }

  lemma SameSizeSubset<T>(a: set<T>, b: set<T>)
    requires a <= b && |a| == |b|
    ensures a == b
  {
    if a != b {
      var x :| x in b && x !in a;
      SubsetCount(a, b - {x});
    }
  }

  /** `m` comes before every other element of `s`. */
  predicate IsLeast(m: string, s: set<string>) {
    m in s && forall y :: y in s ==> AtMost(m, y)
  }

  lemma {:induction false} LeastExists(s: set<string>)
    requires s != {}
    ensures exists m :: IsLeast(m, s)
  {
    var x :| x in s;
    if s == {x} {
      assert IsLeast(x, s);
    } else {
      LeastExists(s - {x});
      var rest :| IsLeast(rest, s - {x});
      LessIsTotal(x, rest);
      var m := if Less(x, rest) then x else rest;
      forall y | y in s
        ensures AtMost(m, y)
      {
        if y != x && m == x && y != rest {
          assert y in s - {x};
          LessIsTransitive(x, rest, y);
        }
      }
      assert IsLeast(m, s);
    }
  }

  lemma LeastIsUnique(s: set<string>, m: string, m': string)
    requires IsLeast(m, s) && IsLeast(m', s)
    ensures m == m'
  {
    LessIsAsymmetric(m, m');
  }

  function Least(s: set<string>): (m: string)
    requires s != {}
    ensures IsLeast(m, s)
  {
    LeastExists(s);
    assert forall x, y :: IsLeast(x, s) && IsLeast(y, s) ==> x == y by {
      forall x, y | IsLeast(x, s) && IsLeast(y, s)
        ensures x == y
      {
        LeastIsUnique(s, x, y);
      }
    }
    var m :| m in s && IsLeast(m, s);
    m
  }

  /** What `[...keys].sort()` returns when the keys are distinct. */
  function Ascending(s: set<string>): (r: seq<string>)
    ensures StrictlySorted(r) && Elements(r) == s && |r| == |s|
  {
    if s == {} then []
    else
      var m := Least(s);
      var rest := Ascending(s - {m});
      LeastFirst(s, m, rest);
      [m] + rest
  }

  lemma LeastFirst(s: set<string>, m: string, rest: seq<string>)
    requires IsLeast(m, s) && StrictlySorted(rest) && Elements(rest) == s - {m} && |rest| == |s| - 1
    ensures StrictlySorted([m] + rest) && Elements([m] + rest) == s && |[m] + rest| == |s|
  {
    var r := [m] + rest;
    forall i, j | 0 <= i < j < |r|
      ensures InOrder(r, i, j)
    {
      if i == 0 {
        assert rest[j - 1] in Elements(rest);
      } else {
        assert InOrder(rest, i - 1, j - 1);
      }
    }
    forall x
      ensures x in Elements(r) <==> x in s
    {
      assert x in r <==> x == m || x in rest;
      assert x in rest <==> x in Elements(rest);
    }
  }

  lemma SortedIsDistinct(s: seq<string>, i: nat, j: nat)
    requires StrictlySorted(s) && i < j < |s|
    ensures s[i] != s[j]
  {
    assert InOrder(s, i, j);
    LessIsAsymmetric(s[i], s[j]);
  }

  lemma FirstIsElement(s: seq<string>)
    requires s != []
    ensures s[0] in Elements(s)
  {
  }

  /** A strictly sorted sequence is determined by its elements. */
  lemma {:induction false} SortedIsUnique(a: seq<string>, b: seq<string>)
    requires StrictlySorted(a) && StrictlySorted(b) && Elements(a) == Elements(b)
    ensures a == b
  {
    if a == [] {
      if b != [] {
        FirstIsElement(b);
      }
    } else {
      assert a[0] in Elements(b);
      assert b != [] && b[0] in Elements(a);
      if a[0] != b[0] {
        var i :| 0 <= i < |b| && b[i] == a[0];
        var j :| 0 <= j < |a| && a[j] == b[0];
        assert InOrder(b, 0, i) && InOrder(a, 0, j);
        LessIsAsymmetric(b[0], a[0]);
      }
      TailElements(a);
      TailElements(b);
      SortedIsUnique(a[1..], b[1..]);
    }
  }

  lemma TailElements(s: seq<string>)
    requires s != [] && StrictlySorted(s)
    ensures Elements(s[1..]) == Elements(s) - {s[0]}
    ensures StrictlySorted(s[1..])
  {
    forall i, j | 0 <= i < j < |s[1..]|
      ensures InOrder(s[1..], i, j)
    {
      assert InOrder(s, i + 1, j + 1);
    }
    forall x | x in Elements(s) - {s[0]}
      ensures x in s[1..]
    {
      var i :| 0 <= i < |s| && s[i] == x;
      assert s[1..][i - 1] == x;
    }
    forall i | 0 <= i < |s[1..]|
      ensures s[1..][i] != s[0]
    {
      SortedIsDistinct(s, 0, i + 1);
    }
  }

  // --------------------------------------------------- splitting and joining

  /** `text.split(separator)` for a one-character separator. */
  function Split(text: string, separator: char): (parts: seq<string>)
    ensures |parts| >= 1
  {
    if text == [] then [[]]
    else
      var rest := Split(text[1..], separator);
      if text[0] == separator then [[]] + rest
      else [[text[0]] + rest[0]] + rest[1..]
  }

  /** `parts.join(separator)` for a one-character separator. */
  function Join(parts: seq<string>, separator: char): string {
    if parts == [] then []
    else if |parts| == 1 then parts[0]
    else parts[0] + [separator] + Join(parts[1..], separator)
  }

  lemma JoinCons(head: string, rest: seq<string>, separator: char)
    requires rest != []
    ensures Join([head] + rest, separator) == head + [separator] + Join(rest, separator)
  {
    assert ([head] + rest)[1..] == rest;
  }

  lemma JoinExtend(c: char, parts: seq<string>, separator: char)
    requires parts != []
    ensures Join([[c] + parts[0]] + parts[1..], separator) == [c] + Join(parts, separator)
  {
    if |parts| > 1 {
      JoinCons([c] + parts[0], parts[1..], separator);
    }
  }

  lemma {:induction false} JoinSplit(text: string, separator: char)
    ensures Join(Split(text, separator), separator) == text
  {
    if text != [] {
      var rest := Split(text[1..], separator);
      JoinSplit(text[1..], separator);
      JoinCons([], rest, separator);
      JoinExtend(text[0], rest, separator);
    }
  }

  lemma {:induction false} SplitParts(text: string, separator: char)
    ensures forall i :: 0 <= i < |Split(text, separator)| ==> separator !in Split(text, separator)[i]
  {
    if text != [] {
      SplitParts(text[1..], separator);
    }
  }

  lemma {:induction false} SplitPlain(text: string, separator: char)
    requires separator !in text
    ensures Split(text, separator) == [text]
  {
    if text != [] {
      SplitPlain(text[1..], separator);
      assert text == [text[0]] + text[1..];
    }
  }

  /** Adds the pieces found left of a text to the pieces of the text. */
  function Attach(c: char, parts: seq<string>, separator: char): seq<string>
    requires |parts| >= 1
  {
    if c == separator then [[]] + parts else [[c] + parts[0]] + parts[1..]
  }

  lemma SplitCons(c: char, text: string, separator: char)
    ensures Split([c] + text, separator) == Attach(c, Split(text, separator), separator)
  {
    assert ([c] + text)[1..] == text;
  }

  lemma AttachAppend(c: char, left: seq<string>, right: seq<string>, separator: char)
    requires |left| >= 1
    ensures Attach(c, left + right, separator) == Attach(c, left, separator) + right
  {
  }

  lemma {:induction false} SplitAppend(a: string, b: string, separator: char)
    ensures Split(a + [separator] + b, separator) == Split(a, separator) + Split(b, separator)
  {
    if a == [] {
      SplitCons(separator, b, separator);
      assert a + [separator] + b == [separator] + b;
    } else {
      var tail := a[1..] + [separator] + b;
      SplitAppend(a[1..], b, separator);
      SplitCons(a[0], a[1..], separator);
      SplitCons(a[0], tail, separator);
      AttachAppend(a[0], Split(a[1..], separator), Split(b, separator), separator);
      assert [a[0]] + a[1..] == a;
      assert [a[0]] + tail == a + [separator] + b;
    }
  }

  lemma {:induction false} SplitJoin(parts: seq<string>, separator: char)
    requires |parts| >= 1
    requires forall i :: 0 <= i < |parts| ==> separator !in parts[i]
    ensures Split(Join(parts, separator), separator) == parts
  {
    SplitPlain(parts[0], separator);
    if |parts| == 1 {
      assert parts == [parts[0]];
    } else {
      SplitJoin(parts[1..], separator);
      SplitAppend(parts[0], Join(parts[1..], separator), separator);
      assert parts == [parts[0]] + parts[1..];
    }
  }

  // -------------------------------------------------------------- substrings

  predicate OccursAt(text: string, part: string, i: int) {
    0 <= i <= |text| - |part| && text[i..i + |part|] == part
  }

  /** `text.includes(part)` */
  predicate Contains(text: string, part: string) {
    exists i :: 0 <= i <= |text| && OccursAt(text, part, i)
  }

  // ------------------------------------------------------------- white space

  /** The characters `trim` removes and `\s` matches. */
  predicate IsSpace(c: char) {
    var code := c as int;
    9 <= code <= 13 || code == 32 || code == 0xA0 || code == 0x1680 || 0x2000 <= code <= 0x200A
    || code == 0x2028 || code == 0x2029 || code == 0x202F || code == 0x205F || code == 0x3000 || code == 0xFEFF
  }

  /** `text.trim() === ""` */
  predicate IsBlank(text: string) {
    forall i :: 0 <= i < |text| ==> IsSpace(text[i])
  }

  function DropWhile(text: string, p: char -> bool): string {
    if text != "" && p(text[0]) then DropWhile(text[1..], p) else text
  }

  function DropLastWhile(text: string, p: char -> bool): (r: string)
    ensures |r| <= |text| && r == text[..|r|]
  {
    if text != "" && p(text[|text| - 1]) then DropLastWhile(text[..|text| - 1], p) else text
  }

  /** The text without such characters at its ends. */
  function Strip(text: string, p: char -> bool): string {
    DropLastWhile(DropWhile(text, p), p)
  }

  function Trim(text: string): string {
    Strip(text, IsSpace)
  }

  predicate All(text: string, p: char -> bool) {
    forall i :: 0 <= i < |text| ==> p(text[i])
  }

  /** Neither end is such a character. */
  predicate IsBare(text: string, p: char -> bool) {
    text != "" ==> !p(text[0]) && !p(text[|text| - 1])
  }

  lemma {:induction false} DropWhileSplits(text: string, p: char -> bool) returns (head: string)
    ensures text == head + DropWhile(text, p) && All(head, p)
    ensures DropWhile(text, p) != "" ==> !p(DropWhile(text, p)[0])
  {
    if text != "" && p(text[0]) {
      var rest := DropWhileSplits(text[1..], p);
      head := [text[0]] + rest;
    } else {
      head := "";
    }
  }

  lemma {:induction false} DropLastWhileSplits(text: string, p: char -> bool) returns (tail: string)
    ensures text == DropLastWhile(text, p) + tail && All(tail, p)
    ensures var r := DropLastWhile(text, p); r != "" ==> !p(r[|r| - 1])
  {
    if text != "" && p(text[|text| - 1]) {
      var init, last := text[..|text| - 1], text[|text| - 1];
      var rest := DropLastWhileSplits(init, p);
      tail := rest + [last];
      Regroup(DropLastWhile(init, p), rest, [last]);
      AllMore(rest, last, p);
      assert text == init + [last];
    } else {
      tail := "";
    }
  }

  lemma AllMore(text: string, c: char, p: char -> bool)
    requires All(text, p) && p(c)
    ensures All(text + [c], p)
  {
  }

  /** Stripping removes such characters from both ends, and stops at others. */
  lemma StripSplits(text: string, p: char -> bool) returns (head: string, tail: string)
    ensures text == head + Strip(text, p) + tail && All(head, p) && All(tail, p) && IsBare(Strip(text, p), p)
  {
    head := DropWhileSplits(text, p);
    var rest := DropWhile(text, p);
    tail := DropLastWhileSplits(rest, p);
    Regroup(head, DropLastWhile(rest, p), tail);
    assert DropLastWhile(rest, p) != "" ==> DropLastWhile(rest, p)[0] == rest[0];
  }

  lemma BlankIffTrimmed(text: string)
    ensures IsBlank(text) <==> Trim(text) == ""
  {
    var head, tail := StripSplits(text, IsSpace);
    if Trim(text) != "" {
      assert Trim(text)[0] == text[|head|];
    }
  }

  lemma Regroup<T>(a: seq<T>, b: seq<T>, c: seq<T>)
    ensures (a + b) + c == a + (b + c)
  {
  }

  lemma {:induction false} DropWhileOf(head: string, rest: string, p: char -> bool)
    requires All(head, p) && (rest == "" || !p(rest[0]))
    ensures DropWhile(head + rest, p) == rest
  {
    if head == "" {
      assert head + rest == rest;
    } else {
      DropWhileOf(head[1..], rest, p);
      assert (head + rest)[1..] == head[1..] + rest;
    }
  }

  lemma {:induction false} DropLastWhileOf(rest: string, tail: string, p: char -> bool)
    requires All(tail, p) && (rest == "" || !p(rest[|rest| - 1]))
    ensures DropLastWhile(rest + tail, p) == rest
    decreases |tail|
  {
    if tail == "" {
      assert rest + tail == rest;
    } else {
      DropLastWhileOf(rest, tail[..|tail| - 1], p);
      assert (rest + tail)[..|rest + tail| - 1] == rest + tail[..|tail| - 1];
    }
  }

  /** What stands between such characters is what stripping leaves. */
  lemma StripOf(head: string, core: string, tail: string, p: char -> bool)
    requires All(head, p) && All(tail, p) && core != "" && IsBare(core, p)
    ensures Strip(head + core + tail, p) == core
  {
    assert head + core + tail == head + (core + tail);
    DropWhileOf(head, core + tail, p);
    DropLastWhileOf(core, tail, p);
  }

  // --------------------------------------------------------------- searching

  /** The first result that `f` gives, from item `start` on. */
  function FirstSome<T, E>(items: seq<T>, start: nat, f: T -> Option<E>): Option<E>
    requires start <= |items|
    decreases |items| - start
  {
    if start == |items| then None
    else if f(items[start]).Some? then f(items[start])
    else FirstSome(items, start + 1, f)
  }

  /** `items.find(p)` */
  function FindFirst<T>(items: seq<T>, p: T -> bool): (r: Option<T>)
    ensures r.Some? ==> r.value in items && p(r.value)
    ensures r.None? ==> forall x :: x in items ==> !p(x)
  {
    if items == [] then None
    else if p(items[0]) then Some(items[0])
    else FindFirst(items[1..], p)
  }
}
