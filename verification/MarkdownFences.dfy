/** The line scanner for code references in Markdown: fences, quotes, and how a scan composes. */
module MarkdownFences {
  import opened Text
  import opened FenceLines
  import opened BlockQuotes
  import opened LineMachine

  // ------------------------------------------------------- state and meaning

  /** The reference pattern, and the test for a shell language in an info string. */
  datatype Outside = Outside(scan: string -> seq<string>, illustrative: string -> bool)

  datatype CodeRef = CodeRef(line: nat, target: string)

  /** A line as the scanner sees it: the fence it is when read whole, and when read after its quote markers. */
  datatype Line = Line(blank: bool, depth: nat, whole: Option<Fence>, inner: Option<Fence>, text: string)

  function LineOf(text: string): Line {
    Line(IsBlank(text), QuoteOf(text).depth, FenceOf(text), FenceOf(QuoteOf(text).content), text)
  }

  function Lines(body: string): seq<Line> {
    var texts := Split(body, '\n');
    seq(|texts|, i requires 0 <= i < |texts| => LineOf(texts[i]))
  }

  /** Depth 0 is a fence outside every quote. */
  datatype State = Plain | InFence(skip: bool, marker: char, length: nat, depth: nat)

  /** The line closes the fence when it is read as `fence`. */
  predicate Ends(state: State, fence: Option<Fence>)
    requires state.InFence?
  {
    fence.Some? && Closes(Fence(state.marker, state.length, ""), fence.value)
  }

  predicate Leaves(state: State, line: Line) {
    state.InFence? && state.depth > 0 && line.depth < state.depth
  }

  predicate IsExample(state: State, line: Line) {
    state.InFence? && state.depth > 0 && line.depth > state.depth
  }

  function FromPlain(fence: Option<Fence>, depth: nat, outside: Outside): State {
    if fence.None? then Plain
    else InFence(outside.illustrative(fence.value.rest), fence.value.marker, fence.value.length, depth)
  }

  /** A fence outside every quote reads the whole of a line, a quoted one what follows the markers. */
  function Literal(state: State, line: Line): Option<Fence>
    requires state.InFence?
  {
    if state.depth == 0 then line.whole else line.inner
  }

  function Next(state: State, line: Line, outside: Outside): State {
    if line.blank then state
    else if state.Plain? || Leaves(state, line) then FromPlain(line.inner, line.depth, outside)
    else if IsExample(state, line) then state
    else if Ends(state, Literal(state, line)) then Plain
    else state
  }

  /** Whether references are looked for on a line. */
  predicate IsScanned(state: State, line: Line) {
    if line.blank then false
    else if state.Plain? || Leaves(state, line) then line.inner.None?
    else if IsExample(state, line) then !state.skip
    else Literal(state, line).None? && !state.skip
  }

  function LineRefs(text: string, number: nat, outside: Outside): seq<CodeRef> {
    var targets := outside.scan(text);
    seq(|targets|, i requires 0 <= i < |targets| => CodeRef(number, targets[i]))
  }

  function Step(outside: Outside): (State, Line) -> State {
    (s: State, line: Line) => Next(s, line, outside)
  }

  function Emit(outside: Outside): (State, Line, nat) -> seq<CodeRef> {
    (s: State, line: Line, number: nat) => if IsScanned(s, line) then LineRefs(line.text, number, outside) else []
  }

  function After(state: State, lines: seq<Line>, outside: Outside): State {
    FinalState(Step(outside), state, lines)
  }

  /** The references of lines numbered from `first` on. */
  function Refs(state: State, lines: seq<Line>, first: nat, outside: Outside): seq<CodeRef> {
    Output(Step(outside), Emit(outside), state, lines, first)
  }

  function CodeRefs(body: string, outside: Outside): seq<CodeRef> {
    Refs(Plain, Lines(body), 1, outside)
  }

  // ------------------------------------------------------------- the scanner

  class Scanner {
    const outside: Outside
    var refs: seq<CodeRef>
    var fenced: bool
    var skipFence: bool
    var fenceChar: string
    var fenceLength: nat
    var fenceQuoteDepth: Option<nat>

    ghost predicate Valid()
      reads this
    {
      (fenceQuoteDepth.Some? ==> fenceQuoteDepth.value > 0) && (fenced ==> |fenceChar| == 1)
    }

    ghost function State(): State
      requires Valid()
      reads this
    {
      if !fenced then Plain
      else InFence(skipFence, fenceChar[0], fenceLength, if fenceQuoteDepth.None? then 0 else fenceQuoteDepth.value)
    }

    constructor (outside: Outside)
      ensures Valid() && State() == Plain && refs == [] && this.outside == outside
    {
      this.outside := outside;
      refs := [];
      fenced, skipFence, fenceChar, fenceLength, fenceQuoteDepth := false, false, "", 0, None;
    }

    method OpenFence(fence: Fence, depth: nat)
      modifies `fenced, `skipFence, `fenceChar, `fenceLength, `fenceQuoteDepth
      ensures Valid() && State() == InFence(outside.illustrative(fence.rest), fence.marker, fence.length, depth)
    {
      fenced := true;
      fenceChar := [fence.marker];
      fenceLength := fence.length;
      fenceQuoteDepth := if depth > 0 then Some(depth) else None;
      skipFence := outside.illustrative(fence.rest);
    }

    method CloseFence()
      modifies `fenced, `skipFence, `fenceChar, `fenceLength, `fenceQuoteDepth
      ensures Valid() && State() == Plain
    {
      fenced, skipFence, fenceChar, fenceLength, fenceQuoteDepth := false, false, "", 0, None;
    }

    /** `closesFence`, which is asked in a fence only. */
    predicate ClosesFence(fence: Fence)
      requires Valid() && fenced
      reads this
      ensures ClosesFence(fence) <==> Ends(State(), Some(fence))
    {
      [fence.marker] == fenceChar && fence.length >= fenceLength && IsBlank(fence.rest)
    }

    method ScanLine(line: string, index: nat)
      modifies `refs
      ensures refs == old(refs) + LineRefs(line, index + 1, outside)
    {
      refs := refs + LineRefs(line, index + 1, outside);
    }

    /** One line of a fence, read as `fence`. */
    method VisitLiteral(fence: Option<Fence>, line: string, index: nat)
      requires Valid() && fenced
      modifies this
      ensures Valid() && State() == if Ends(old(State()), fence) then Plain else old(State())
      ensures refs == old(refs) + if fence.None? && !old(skipFence) then LineRefs(line, index + 1, outside) else []
    {
      if fence.Some? {
        if ClosesFence(fence.value) { CloseFence(); }
        return;
      }
      if skipFence { return; }
      ScanLine(line, index);
    }

    method VisitPlain(fence: Option<Fence>, depth: nat, line: string, index: nat)
      requires Valid() && !fenced
      modifies this
      ensures Valid() && State() == FromPlain(fence, depth, outside)
      ensures refs == old(refs) + if fence.None? then LineRefs(line, index + 1, outside) else []
    {
      if fence.Some? {
        OpenFence(fence.value, depth);
        return;
      }
      ScanLine(line, index);
    }

    /** A line with text on it. */
    method VisitText(line: Line, index: nat)
      requires Valid() && !line.blank
      modifies this
      ensures Valid() && State() == Next(old(State()), line, outside)
      ensures refs == old(refs) + if IsScanned(old(State()), line) then LineRefs(line.text, index + 1, outside) else []
    {
      if fenced && fenceQuoteDepth.None? {
        VisitLiteral(line.whole, line.text, index);
        return;
      }
      if fenced && fenceQuoteDepth.Some? && line.depth != fenceQuoteDepth.value {
        if line.depth > fenceQuoteDepth.value {
          if !skipFence { ScanLine(line.text, index); }
          return;
        }
        CloseFence();
      }
      if fenced {
        VisitLiteral(line.inner, line.text, index);
        return;
      }
      VisitPlain(line.inner, line.depth, line.text, index);
    }

    method Visit(text: string, index: nat)
      requires Valid()
      modifies this
      ensures Valid() && State() == Next(old(State()), LineOf(text), outside)
      ensures refs == old(refs) + if IsScanned(old(State()), LineOf(text)) then LineRefs(text, index + 1, outside) else []
    {
      if IsBlank(text) { return; }
      var quote := SplitBlockquotePrefix(text);
      VisitText(Line(false, quote.depth, FenceOf(text), FenceOf(quote.content), text), index);
    }
  }

  lemma NextLine(lines: seq<Line>, index: nat, outside: Outside)
    requires index < |lines|
    ensures After(Plain, lines[..index + 1], outside) == Next(After(Plain, lines[..index], outside), lines[index], outside)
    ensures Refs(Plain, lines[..index + 1], 1, outside)
         == Refs(Plain, lines[..index], 1, outside)
            + if IsScanned(After(Plain, lines[..index], outside), lines[index])
              then LineRefs(lines[index].text, index + 1, outside) else []
  {
    assert lines[..index + 1] == lines[..index] + [lines[index]];
    OneLineMore(Plain, lines[..index], lines[index], 1, outside);
  }

  lemma OneLineMore(state: State, lines: seq<Line>, line: Line, first: nat, outside: Outside)
    ensures After(state, lines + [line], outside) == Next(After(state, lines, outside), line, outside)
    ensures Refs(state, lines + [line], first, outside)
         == Refs(state, lines, first, outside)
            + if IsScanned(After(state, lines, outside), line) then LineRefs(line.text, first + |lines|, outside) else []
  {
    OneMore(Step(outside), Emit(outside), state, lines, line, first);
  }

  // ------------------------------------------------------------- composition

  function Shifted(refs: seq<CodeRef>, shift: nat): seq<CodeRef> {
    seq(|refs|, i requires 0 <= i < |refs| => CodeRef(refs[i].line + shift, refs[i].target))
  }

  lemma ShiftedAppend(a: seq<CodeRef>, b: seq<CodeRef>, shift: nat)
    ensures Shifted(a + b, shift) == Shifted(a, shift) + Shifted(b, shift)
  {
  }

  lemma EmitShift(state: State, line: Line, number: nat, shift: nat, outside: Outside)
    ensures Emit(outside)(state, line, number + shift) == Shifted(Emit(outside)(state, line, number), shift)
  {
    assert LineRefs(line.text, number + shift, outside) == Shifted(LineRefs(line.text, number, outside), shift);
    assert Shifted([], shift) == [];
  }

  lemma ShiftedIsAdditive(f: seq<CodeRef> -> seq<CodeRef>, shift: nat)
    requires forall refs :: f(refs) == Shifted(refs, shift)
    ensures IsAdditive(f)
  {
    forall a: seq<CodeRef>, b: seq<CodeRef>
      ensures f(a) + f(b) == f(a + b)
    {
      ShiftedAppend(a, b, shift);
    }
  }

  lemma LinesAppend(prefix: string, rest: string)
    ensures Lines(prefix + ['\n'] + rest) == Lines(prefix) + Lines(rest)
  {
    SplitAppend(prefix, rest, '\n');
  }

  /** A text that ends outside every fence is scanned on its own, and so is what follows it. */
  lemma ScanComposes(prefix: string, rest: string, outside: Outside)
    requires After(Plain, Lines(prefix), outside) == Plain
    ensures CodeRefs(prefix + ['\n'] + rest, outside)
         == CodeRefs(prefix, outside) + Shifted(CodeRefs(rest, outside), |Lines(prefix)|)
  {
    LinesAppend(prefix, rest);
    LinesCompose(Lines(prefix), Lines(rest), outside);
  }

  lemma LinesCompose(a: seq<Line>, b: seq<Line>, outside: Outside)
    requires After(Plain, a, outside) == Plain
    ensures Refs(Plain, a + b, 1, outside) == Refs(Plain, a, 1, outside) + Shifted(Refs(Plain, b, 1, outside), |a|)
  {
    var f := (refs: seq<CodeRef>) => Shifted(refs, |a|);
    forall s: State, line: Line, n: nat
      ensures Emit(outside)(s, line, n + |a|) == f(Emit(outside)(s, line, n))
    {
      EmitShift(s, line, n, |a|, outside);
    }
    ShiftedIsAdditive(f, |a|);
    OutputComposes(Step(outside), Emit(outside), f, Plain, a, b, 1);
  }

  // ---------------------------------------------------------- leaving a quote

  predicate AllBlank(lines: seq<Line>) {
    forall i :: 0 <= i < |lines| ==> lines[i].blank
  }

  lemma {:induction false} BlanksChangeNothing(state: State, blanks: seq<Line>, first: nat, outside: Outside)
    requires AllBlank(blanks)
    ensures After(state, blanks, outside) == state && Refs(state, blanks, first, outside) == []
  {
    if blanks != [] {
      var init, last := blanks[..|blanks| - 1], blanks[|blanks| - 1];
      BlanksChangeNothing(state, init, first, outside);
      OneLineMore(state, init, last, first, outside);
      assert blanks == init + [last];
    }
  }

  /** In either state the line is read as in the initial one. */
  lemma BlanksThenLine(state: State, blanks: seq<Line>, line: Line, first: nat, outside: Outside)
    requires AllBlank(blanks) && !line.blank && (state.Plain? || Leaves(state, line))
    ensures After(state, blanks + [line], outside) == FromPlain(line.inner, line.depth, outside)
    ensures Refs(state, blanks + [line], first, outside)
         == if line.inner.None? then LineRefs(line.text, first + |blanks|, outside) else []
  {
    BlanksChangeNothing(state, blanks, first, outside);
    OneLineMore(state, blanks, line, first, outside);
  }

  /** From inside a quoted fence, once the next line with text is in fewer quotes, everything is scanned
      as from the initial state: an unclosed quoted fence swallows nothing beyond its quote. */
  lemma QuoteEndsFence(state: State, blanks: seq<Line>, line: Line, rest: seq<Line>, first: nat, outside: Outside)
    requires state.InFence? && state.depth > 0 && AllBlank(blanks) && !line.blank && line.depth < state.depth
    ensures After(state, blanks + [line] + rest, outside) == After(Plain, blanks + [line] + rest, outside)
    ensures Refs(state, blanks + [line] + rest, first, outside) == Refs(Plain, blanks + [line] + rest, first, outside)
  {
    BlanksThenLine(state, blanks, line, first, outside);
    BlanksThenLine(Plain, blanks, line, first, outside);
    SameAfterHead(Step(outside), Emit(outside), state, Plain, blanks + [line], rest, first);
  }

  // --------------------------------------------------------- inside a fence

  /** The line ends the fence: it closes it, or it stands in fewer quotes. */
  predicate EndsBlock(state: State, line: Line)
    requires state.InFence?
  {
    !line.blank && (Leaves(state, line) || (!IsExample(state, line) && Ends(state, Literal(state, line))))
  }

  /** A fence lasts exactly to the first line that closes it or leaves its quote. */
  lemma {:induction false} FenceLasts(state: State, lines: seq<Line>, first: nat, outside: Outside)
    requires state.InFence? && forall i :: 0 <= i < |lines| ==> !EndsBlock(state, lines[i])
    ensures After(state, lines, outside) == state
    ensures state.skip ==> Refs(state, lines, first, outside) == []
  {
    if lines != [] {
      var init, last := lines[..|lines| - 1], lines[|lines| - 1];
      FenceLasts(state, init, first, outside);
      OneLineMore(state, init, last, first, outside);
      assert lines == init + [last];
    }
  }

  /** What follows the lines of a block is scanned as from the initial state: from the line after the one that closes it,
      or from the very line that leaves its quote. */
  lemma FenceEnds(state: State, block: seq<Line>, line: Line, rest: seq<Line>, first: nat, outside: Outside)
    requires state.InFence? && (forall i :: 0 <= i < |block| ==> !EndsBlock(state, block[i])) && EndsBlock(state, line)
    ensures var onward := if Leaves(state, line) then [line] + rest else rest;
            var number := if Leaves(state, line) then first + |block| else first + |block| + 1;
            && After(state, block + ([line] + rest), outside) == After(Plain, onward, outside)
            && Refs(state, block + ([line] + rest), first, outside)
               == Refs(state, block, first, outside) + Refs(Plain, onward, number, outside)
  {
    FenceLasts(state, block, first, outside);
    EndingLine(state, line, rest, first + |block|, outside);
    if Leaves(state, line) {
      BlockThenRest(state, block, [line] + rest, [line] + rest, first, first + |block|, outside);
    } else {
      BlockThenRest(state, block, [line] + rest, rest, first, first + |block| + 1, outside);
    }
  }

  lemma BlockThenRest(state: State, block: seq<Line>, tail: seq<Line>, onward: seq<Line>, first: nat, number: nat, outside: Outside)
    requires After(state, block, outside) == state && After(state, tail, outside) == After(Plain, onward, outside)
    requires Refs(state, tail, first + |block|, outside) == Refs(Plain, onward, number, outside)
    ensures After(state, block + tail, outside) == After(Plain, onward, outside)
    ensures Refs(state, block + tail, first, outside)
         == Refs(state, block, first, outside) + Refs(Plain, onward, number, outside)
  {
    Cut(state, block, tail, first, outside);
  }

  lemma Cut(state: State, a: seq<Line>, b: seq<Line>, first: nat, outside: Outside)
    ensures After(state, a + b, outside) == After(After(state, a, outside), b, outside)
    ensures Refs(state, a + b, first, outside)
         == Refs(state, a, first, outside) + Refs(After(state, a, outside), b, first + |a|, outside)
  {
    FinalAppend(Step(outside), state, a, b);
    OutputAppend(Step(outside), Emit(outside), state, a, b, first);
  }

  lemma EndingLine(state: State, line: Line, rest: seq<Line>, number: nat, outside: Outside)
    requires state.InFence? && EndsBlock(state, line)
    ensures var onward := if Leaves(state, line) then [line] + rest else rest;
            && After(state, [line] + rest, outside) == After(Plain, onward, outside)
            && Refs(state, [line] + rest, number, outside)
               == Refs(Plain, onward, if Leaves(state, line) then number else number + 1, outside)
  {
    if Leaves(state, line) {
      QuoteEndsFence(state, [], line, rest, number, outside);
      assert [] + [line] + rest == [line] + rest;
    } else {
      OneLineMore(state, [], line, number, outside);
      assert [] + [line] == [line];
      Cut(state, [line], rest, number, outside);
    }
  }

  /** Where line `k` ends the open fence, the rest is scanned as from the initial state. */
  lemma ResumeAfter(lines: seq<Line>, k: nat, outside: Outside)
    requires k < |lines| && After(Plain, lines[..k], outside).InFence?
    requires EndsBlock(After(Plain, lines[..k], outside), lines[k])
    ensures var n := if Leaves(After(Plain, lines[..k], outside), lines[k]) then k else k + 1;
            && After(Plain, lines, outside) == After(Plain, lines[n..], outside)
            && Refs(Plain, lines, 1, outside) == Refs(Plain, lines[..n], 1, outside) + Refs(Plain, lines[n..], n + 1, outside)
  {
    var state := After(Plain, lines[..k], outside);
    if Leaves(state, lines[k]) {
      LeavingLine(lines, k, state, outside);
      ResumeAt(lines, k, outside);
    } else {
      NextLine(lines, k, outside);
      ResumeAt(lines, k + 1, outside);
    }
  }

  lemma LeavingLine(lines: seq<Line>, k: nat, state: State, outside: Outside)
    requires k < |lines| && state.InFence? && EndsBlock(state, lines[k]) && Leaves(state, lines[k])
    ensures After(state, lines[k..], outside) == After(Plain, lines[k..], outside)
    ensures Refs(state, lines[k..], k + 1, outside) == Refs(Plain, lines[k..], k + 1, outside)
  {
    assert lines[k..] == [lines[k]] + lines[k + 1..];
    EndingLine(state, lines[k], lines[k + 1..], k + 1, outside);
  }

  /** If the rest is scanned alike from the state reached and from the initial one, it may be cut off there. */
  lemma ResumeAt(lines: seq<Line>, n: nat, outside: Outside)
    requires n <= |lines|
    requires var state := After(Plain, lines[..n], outside);
             && After(state, lines[n..], outside) == After(Plain, lines[n..], outside)
             && Refs(state, lines[n..], n + 1, outside) == Refs(Plain, lines[n..], n + 1, outside)
    ensures After(Plain, lines, outside) == After(Plain, lines[n..], outside)
    ensures Refs(Plain, lines, 1, outside) == Refs(Plain, lines[..n], 1, outside) + Refs(Plain, lines[n..], n + 1, outside)
  {
    assert lines == lines[..n] + lines[n..];
    Cut(Plain, lines[..n], lines[n..], 1, outside);
  }

  /** Line `o` is read outside every fence that is still open there, and opens the fence `state`. */
  ghost predicate OpensAt(lines: seq<Line>, o: nat, state: State, outside: Outside)
    requires o < |lines|
  {
    var before := After(Plain, lines[..o], outside);
    && !lines[o].blank && lines[o].inner.Some? && (before.Plain? || Leaves(before, lines[o]))
    && state == FromPlain(lines[o].inner, lines[o].depth, outside)
  }

  ghost predicate OpenSince(lines: seq<Line>, o: nat, state: State, outside: Outside)
    requires o < |lines| && state.InFence?
  {
    OpensAt(lines, o, state, outside) && forall k :: o < k < |lines| ==> !EndsBlock(state, lines[k])
  }

  /** The scanner is inside a fence exactly if some line opened it and no line since has ended it. */
  lemma InFenceIff(lines: seq<Line>, state: State, outside: Outside)
    requires state.InFence?
    ensures After(Plain, lines, outside) == state <==> exists o :: 0 <= o < |lines| && OpenSince(lines, o, state, outside)
  {
    if After(Plain, lines, outside) == state {
      var o := OpeningLine(lines, state, outside);
    }
    if o :| 0 <= o < |lines| && OpenSince(lines, o, state, outside) {
      StillOpen(lines, o, state, outside);
    }
  }

  lemma StillOpen(lines: seq<Line>, o: nat, state: State, outside: Outside)
    requires o < |lines| && state.InFence? && OpenSince(lines, o, state, outside)
    ensures After(Plain, lines, outside) == state
  {
    var upTo, rest := lines[..o + 1], lines[o + 1..];
    AfterOpening(lines, o, state, outside);
    FenceLasts(state, rest, 0, outside);
    Cut(Plain, upTo, rest, 0, outside);
    assert lines == upTo + rest;
  }

  lemma AfterOpening(lines: seq<Line>, o: nat, state: State, outside: Outside)
    requires o < |lines| && state.InFence? && OpensAt(lines, o, state, outside)
    ensures After(Plain, lines[..o + 1], outside) == state
  {
    NextLine(lines, o, outside);
  }

  lemma {:induction false} OpeningLine(lines: seq<Line>, state: State, outside: Outside) returns (o: nat)
    requires state.InFence? && After(Plain, lines, outside) == state
    ensures o < |lines| && OpenSince(lines, o, state, outside)
    decreases |lines|
  {
    assert lines != [];
    var init, last := lines[..|lines| - 1], lines[|lines| - 1];
    var before := After(Plain, init, outside);
    NextLine(lines, |init|, outside);
    assert lines[..|lines|] == lines;
    if !last.blank && (before.Plain? || Leaves(before, last)) {
      o := |init|;
    } else {
      o := OpeningLine(init, state, outside);
      StaysOpen(lines, o, state, outside);
    }
  }

  lemma StaysOpen(lines: seq<Line>, o: nat, state: State, outside: Outside)
    requires state.InFence? && o + 1 < |lines| && OpenSince(lines[..|lines| - 1], o, state, outside)
    requires After(Plain, lines[..|lines| - 1], outside) == state && !EndsBlock(state, lines[|lines| - 1])
    ensures OpenSince(lines, o, state, outside)
  {
    var init := lines[..|lines| - 1];
    assert init[..o] == lines[..o] && init[o] == lines[o];
    forall k | o < k < |lines|
      ensures !EndsBlock(state, lines[k])
    {
      assert k < |init| ==> !EndsBlock(state, init[k]);
    }
  }

  /** A quote marker never closes a fence outside every quote, whatever stands behind it. */
  lemma MarkerKeepsUnquotedFence(state: State, text: string)
    requires state.InFence? && state.depth == 0 && MarkerLength(text) > 0
    ensures !EndsBlock(state, LineOf(text))
  {
    assert text[Run(text, ' ')] == '>';
  }
}
