/** The binding grammar: `${inputs.name}` and `${node.output}` with an optional nested path. */
module Bindings {
  import opened Text

  datatype Source =
    | Input(name: string)
    | Output(node: string, output: string, path: seq<string>)

  datatype Reading = Plain | Malformed | Binding(source: Source)

  // ------------------------------------------------------ character classes

  predicate IsLower(c: char) { 'a' <= c <= 'z' }

  /** `[a-z0-9_]` */
  predicate IsNameChar(c: char) { IsLower(c) || IsDigit(c) || c == '_' }

  /** `[a-zA-Z0-9_-]`: the suffix class without the dot that separates its segments. */
  predicate IsSegmentChar(c: char) { IsNameChar(c) || 'A' <= c <= 'Z' || c == '-' }

  /** `[a-z][a-z0-9_]*` */
  predicate IsName(s: string) {
    s != [] && IsLower(s[0]) && forall i :: 0 <= i < |s| ==> IsNameChar(s[i])
  }

  /** `[a-z][a-z0-9_-]*` */
  predicate IsIdentifier(s: string) {
    s != [] && IsLower(s[0]) && forall i :: 0 <= i < |s| ==> IsNameChar(s[i]) || s[i] == '-'
  }

  /** `[a-zA-Z0-9_.-]+` */
  predicate IsSuffix(s: string) {
    s != [] && forall i :: 0 <= i < |s| ==> IsSegmentChar(s[i]) || s[i] == '.'
  }

  // --------------------------------------- the two patterns as they are written

  predicate InputPattern(text: string, name: string) {
    IsName(name) && text == "${inputs." + name + "}"
  }

  predicate OutputPattern(text: string, node: string, output: string, suffix: Option<string>) {
    && IsIdentifier(node) && IsName(output)
    && (suffix.Some? ==> IsSuffix(suffix.value))
    && text == "${" + node + "." + output + (if suffix.Some? then "." + suffix.value else "") + "}"
  }

  /** `suffix === undefined ? [] : suffix.split(".")` */
  function NestedPath(suffix: Option<string>): seq<string> {
    if suffix.Some? then Split(suffix.value, '.') else []
  }

  // ------------------------------------------------- reading and printing

  /** The dot-separated words between `${` and `}`. */
  function Words(source: Source): seq<string> {
    match source
    case Input(name) => ["inputs", name]
    case Output(node, output, path) => [node, output] + path
  }

  function Render(source: Source): string {
    "${" + Join(Words(source), '.') + "}"
  }

  predicate IsSegment(s: string) {
    forall i :: 0 <= i < |s| ==> IsSegmentChar(s[i])
  }

  /** The sources some text of the grammar denotes. */
  predicate WellFormed(source: Source) {
    match source
    case Input(name) => IsName(name)
    case Output(node, output, path) =>
      && IsIdentifier(node) && IsName(output)
      && path != [""]
      && forall i :: 0 <= i < |path| ==> IsSegment(path[i])
  }

  /** Written `${inputs.x}`, this is read as a workflow input, whatever node is called `inputs`. */
  predicate Shadowed(source: Source) {
    source.Output? && source.node == "inputs" && source.path == []
  }

  function FromWords(words: seq<string>): Option<Source> {
    if |words| == 2 && words[0] == "inputs" && IsName(words[1]) then Some(Input(words[1]))
    else if |words| >= 2 && WellFormed(Output(words[0], words[1], words[2..]))
    then Some(Output(words[0], words[1], words[2..]))
    else None
  }

  predicate IsDelimited(text: string) {
    |text| >= 3 && text[..2] == "${" && text[|text| - 1] == '}'
  }

  /** What the compiler takes an authored string for. */
  function Read(text: string): Reading {
    var source := if IsDelimited(text) then FromWords(Split(text[2..|text| - 1], '.')) else None;
    if source.Some? then Binding(source.value)
    else if Contains(text, "${") then Malformed
    else Plain
  }

  // ------------------------------------------------------------ theorems

  lemma {:induction false} JoinExcludes(words: seq<string>, c: char)
    requires forall i :: 0 <= i < |words| ==> c !in words[i]
    requires c != '.'
    ensures c !in Join(words, '.')
  {
    if |words| > 1 {
      JoinExcludes(words[1..], c);
    }
  }

  lemma DelimitedText(text: string)
    requires IsDelimited(text)
    ensures text == "${" + text[2..|text| - 1] + "}"
  {
    assert text == text[..2] + text[2..|text| - 1] + [text[|text| - 1]];
  }

  /** Printing what was read gives the text back. */
  lemma ReadThenRender(text: string)
    requires Read(text).Binding?
    ensures Render(Read(text).source) == text && WellFormed(Read(text).source) && !Shadowed(Read(text).source)
  {
    var inner := text[2..|text| - 1];
    var words := Split(inner, '.');
    DelimitedText(text);
    JoinSplit(inner, '.');
    var source := Read(text).source;
    if source.Input? {
      assert words == ["inputs", words[1]];
    } else {
      assert words == [words[0], words[1]] + words[2..];
    }
  }

  lemma WordsHaveNoDot(source: Source)
    requires WellFormed(source)
    ensures forall i :: 0 <= i < |Words(source)| ==> '.' !in Words(source)[i]
  {
  }

  /** Reading what was printed gives the source back, except for the one shadowed shape. */
  lemma RenderThenRead(source: Source)
    requires WellFormed(source)
    ensures Read(Render(source)) == Binding(source) <==> !Shadowed(source)
    ensures Shadowed(source) ==> Read(Render(source)) == Binding(Input(source.output))
  {
    var text := Render(source);
    var inner := Join(Words(source), '.');
    WordsHaveNoDot(source);
    SplitJoin(Words(source), '.');
    NonEmptyWords(source);
    assert text[2..|text| - 1] == inner;
    assert text[..2] == "${";
    assert IsDelimited(text);
    if source.Output? {
      assert Words(source)[2..] == source.path;
    }
  }

  lemma NonEmptyWords(source: Source)
    requires WellFormed(source)
    ensures |Join(Words(source), '.')| >= 1
  {
  }

  /** No two sources share a text, apart from an input and the node output it shadows. */
  lemma RenderIsUnambiguous(a: Source, b: Source)
    requires WellFormed(a) && WellFormed(b) && Render(a) == Render(b)
    ensures a == b || (Shadowed(a) && b == Input(a.output)) || (Shadowed(b) && a == Input(b.output))
  {
    RenderThenRead(a);
    RenderThenRead(b);
  }

  lemma SuffixIsPath(suffix: string)
    requires IsSuffix(suffix)
    ensures Join(Split(suffix, '.'), '.') == suffix
    ensures Split(suffix, '.') != [""]
    ensures forall i :: 0 <= i < |Split(suffix, '.')| ==> IsSegment(Split(suffix, '.')[i])
  {
    JoinSplit(suffix, '.');
    SplitKeepsChars(suffix);
    SplitParts(suffix, '.');
  }

  lemma {:induction false} SplitKeepsChars(suffix: string)
    requires forall i :: 0 <= i < |suffix| ==> IsSegmentChar(suffix[i]) || suffix[i] == '.'
    ensures forall i :: 0 <= i < |Split(suffix, '.')| ==> IsSegment(Split(suffix, '.')[i])
  {
    if suffix != [] {
      SplitKeepsChars(suffix[1..]);
    }
  }

  lemma {:induction false} PathIsSuffix(path: seq<string>)
    requires path != [] && path != [""]
    requires forall i :: 0 <= i < |path| ==> IsSegment(path[i])
    ensures IsSuffix(Join(path, '.')) && Split(Join(path, '.'), '.') == path
  {
    SplitJoin(path, '.');
    JoinKeepsChars(path);
    if |path| == 1 {
      assert path == [path[0]];
    }
  }

  lemma {:induction false} JoinKeepsChars(path: seq<string>)
    requires forall i :: 0 <= i < |path| ==> IsSegment(path[i])
    ensures forall i :: 0 <= i < |Join(path, '.')| ==> IsSegmentChar(Join(path, '.')[i]) || Join(path, '.')[i] == '.'
  {
    if |path| > 1 {
      JoinKeepsChars(path[1..]);
    }
  }

  /** The text of an output binding, spelled out as in the pattern. */
  lemma RenderOutput(node: string, output: string)
    ensures Render(Output(node, output, [])) == "${" + node + "." + output + "" + "}"
  {
    assert [node, output] + [] == [node] + [output];
    JoinCons(node, [output], '.');
    assert "${" + (node + "." + output) + "}" == "${" + node + "." + output + "" + "}";
  }

  lemma RenderNested(node: string, output: string, path: seq<string>)
    requires path != []
    ensures Render(Output(node, output, path)) == "${" + node + "." + output + ("." + Join(path, '.')) + "}"
  {
    var tail := "." + Join(path, '.');
    NestedWords(node, output, path);
    Regroup("${", node + "." + output, tail);
    Dotted("${", node, output);
  }

  lemma Dotted(opener: string, node: string, output: string)
    ensures opener + (node + "." + output) == opener + node + "." + output
  {
    Regroup(opener, node + ".", output);
    Regroup(opener, node, ".");
  }

  lemma NestedWords(node: string, output: string, path: seq<string>)
    requires path != []
    ensures Join([node, output] + path, '.') == node + "." + output + ("." + Join(path, '.'))
  {
    var suffix := Join(path, '.');
    JoinCons(output, path, '.');
    JoinCons(node, [output] + path, '.');
    assert [node, output] + path == [node] + ([output] + path);
    Regroup(output, ".", suffix);
    Regroup(node + ".", output, "." + suffix);
  }

  lemma RenderInput(name: string)
    ensures Render(Input(name)) == "${inputs." + name + "}"
  {
    assert ["inputs", name] == ["inputs"] + [name];
    JoinCons("inputs", [name], '.');
    assert "${" + ("inputs" + "." + name) + "}" == "${inputs." + name + "}";
  }

  /** A text is read as an input exactly when the input pattern matches it. */
  lemma InputIffPattern(text: string, name: string)
    ensures Read(text) == Binding(Input(name)) <==> InputPattern(text, name)
  {
    RenderInput(name);
    if Read(text) == Binding(Input(name)) {
      ReadThenRender(text);
    }
    if InputPattern(text, name) {
      RenderThenRead(Input(name));
    }
  }

  ghost predicate MatchesOutput(text: string, node: string, output: string, path: seq<string>) {
    exists suffix :: OutputPattern(text, node, output, suffix) && path == NestedPath(suffix)
  }

  lemma MatchesIffRenders(text: string, node: string, output: string, path: seq<string>)
    ensures MatchesOutput(text, node, output, path)
       <==> WellFormed(Output(node, output, path)) && text == Render(Output(node, output, path))
  {
    if path == [] {
      RenderOutput(node, output);
    } else {
      RenderNested(node, output, path);
    }
    if MatchesOutput(text, node, output, path) {
      var suffix :| OutputPattern(text, node, output, suffix) && path == NestedPath(suffix);
      if suffix.Some? {
        SuffixIsPath(suffix.value);
      }
    }
    if WellFormed(Output(node, output, path)) && text == Render(Output(node, output, path)) {
      if path == [] {
        assert OutputPattern(text, node, output, None);
      } else {
        PathIsSuffix(path);
        assert OutputPattern(text, node, output, Some(Join(path, '.')));
      }
    }
  }

  /** A text is read as an output exactly when the output pattern matches it and the input pattern does not. */
  lemma OutputIffPattern(text: string, node: string, output: string, path: seq<string>)
    ensures Read(text) == Binding(Output(node, output, path))
       <==> MatchesOutput(text, node, output, path) && forall name :: !InputPattern(text, name)
  {
    var source := Output(node, output, path);
    MatchesIffRenders(text, node, output, path);
    forall name
      ensures InputPattern(text, name) <==> Read(text) == Binding(Input(name))
    {
      InputIffPattern(text, name);
    }
    if Read(text) == Binding(source) {
      ReadThenRender(text);
    }
    if MatchesOutput(text, node, output, path) {
      RenderThenRead(source);
    }
  }

  /** A text without a dollar sign is never part of the binding language. */
  lemma PlainWithoutDollar(text: string)
    requires '$' !in text
    ensures Read(text).Plain?
  {
    assert "${"[0] == '$';
  }
}
