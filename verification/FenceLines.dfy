/** Code-fence lines, as both Markdown scanners recognise them. */
module FenceLines {
  import opened Text

  datatype Fence = Fence(marker: char, length: nat, rest: string)

  /** How many copies of `c` a text starts with. */
  function Run(text: string, c: char): (n: nat)
    ensures n <= |text| && (forall i :: 0 <= i < n ==> text[i] == c) && (n < |text| ==> text[n] != c)
  {
    if text != "" && text[0] == c then 1 + Run(text[1..], c) else 0
  }

  function Repeat(c: char, n: nat): string {
    seq(n, _ => c)
  }

  /** What `.` does not match. */
  predicate IsLineTerminator(c: char) {
    c == '\n' || c == '\r' || c as int == 0x2028 || c as int == 0x2029
  }

  predicate OneLine(text: string) {
    forall i :: 0 <= i < |text| ==> !IsLineTerminator(text[i])
  }

  /** `^ {0,3}(`{3,}|~{3,})(.*)$` */
  function FenceOf(line: string): Option<Fence> {
    var indent := Run(line, ' ');
    if indent > 3 || indent == |line| || !(line[indent] == '`' || line[indent] == '~') then None
    else
      var marker := line[indent];
      var length := Run(line[indent..], marker);
      var rest := line[indent + length..];
      if length >= 3 && OneLine(rest) then Some(Fence(marker, length, rest)) else None
  }

  predicate Closes(open: Fence, fence: Fence) {
    fence.marker == open.marker && fence.length >= open.length && IsBlank(fence.rest)
  }

  lemma RunOf(c: char, n: nat, rest: string)
    requires rest == "" || rest[0] != c
    ensures Run(Repeat(c, n) + rest, c) == n
  {
    var text := Repeat(c, n) + rest;
    assert forall i :: 0 <= i < n ==> text[i] == c;
    assert n < |text| ==> text[n] == rest[0];
  }

  /** A line is a fence exactly when it is at most three spaces, a run of at least three markers, and a rest on one line. */
  lemma FenceShape(line: string, indent: nat, fence: Fence)
    requires fence.marker == '`' || fence.marker == '~'
    requires line == Repeat(' ', indent) + (Repeat(fence.marker, fence.length) + fence.rest)
    requires fence.length >= 1 && (fence.rest == "" || fence.rest[0] != fence.marker)
    ensures FenceOf(line) == if indent <= 3 && fence.length >= 3 && OneLine(fence.rest) then Some(fence) else None
  {
    var tail := Repeat(fence.marker, fence.length) + fence.rest;
    assert tail[0] == fence.marker;
    RunOf(' ', indent, tail);
    RunOf(fence.marker, fence.length, fence.rest);
    assert line[indent..] == tail && line[indent + fence.length..] == fence.rest;
  }

  lemma FenceHasShape(line: string)
    requires FenceOf(line).Some?
    ensures var f := FenceOf(line).value;
            && (f.marker == '`' || f.marker == '~') && f.length >= 3 && (f.rest == "" || f.rest[0] != f.marker)
            && exists indent: nat :: indent <= 3 && line == Repeat(' ', indent) + (Repeat(f.marker, f.length) + f.rest)
  {
    var f, indent := FenceOf(line).value, Run(line, ' ');
    RunSplits(line, ' ');
    RunSplits(line[indent..], f.marker);
    assert f.rest == line[indent..][f.length..];
  }

  lemma RunSplits(text: string, c: char)
    ensures text == Repeat(c, Run(text, c)) + text[Run(text, c)..]
  {
    var n := Run(text, c);
    forall i | 0 <= i < n
      ensures text[..n][i] == Repeat(c, n)[i]
    {
    }
    assert text[..n] == Repeat(c, n);
    assert text == text[..n] + text[n..];
  }
}
