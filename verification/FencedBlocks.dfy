/** The fenced blocks of a Markdown text, read off its lines, and the references that the scanner finds outside and in them. */
module FencedBlocks {
  import opened Text
  import opened FenceLines
  import opened BlockQuotes
  import opened MarkdownFences

  // --------------------------------------------------------------- blocks

  function Depth(text: string): nat { QuoteOf(text).depth }

  /** The fence that a line is when it is read after its quote markers. */
  function Inner(text: string): Option<Fence> { FenceOf(QuoteOf(text).content) }

  predicate HasText(text: string) { Trim(text) != "" }

  /** A fence of the same marker, at least as long, with nothing behind it. */
  predicate IsClosing(opener: Fence, fence: Option<Fence>) {
    && fence.Some? && fence.value.marker == opener.marker && fence.value.length >= opener.length
    && Trim(fence.value.rest) == ""
  }

  /** Line `k` stands in fewer quotes than line `o`. */
  predicate LeavesQuote(texts: seq<string>, o: nat, k: nat)
    requires o < |texts| && k < |texts|
  {
    HasText(texts[k]) && Depth(texts[k]) < Depth(texts[o])
  }

  /** Line `k` closes the fence of line `o`: outside every quote it is read whole, in a quote after as many markers. */
  predicate ClosesBlock(texts: seq<string>, o: nat, k: nat)
    requires o < |texts| && k < |texts|
  {
    && HasText(texts[k]) && Inner(texts[o]).Some?
    && IsClosing(Inner(texts[o]).value,
                 if Depth(texts[o]) == 0 then FenceOf(texts[k])
                 else if Depth(texts[k]) == Depth(texts[o]) then Inner(texts[k]) else None)
  }

  /** Line `o` opens a block, and no line before `k` has closed it or left its quote. */
  ghost predicate IsOpen(texts: seq<string>, o: nat, k: nat)
    requires o < |texts| && k <= |texts|
    decreases o, 1
  {
    && o < k && IsOpener(texts, o)
    && forall j :: o < j < k ==> !LeavesQuote(texts, o, j) && !ClosesBlock(texts, o, j)
  }

  /** Line `o` is a fence after its markers, and no block is open there, unless the line leaves its quote. */
  ghost predicate IsOpener(texts: seq<string>, o: nat)
    requires o < |texts|
    decreases o, 0
  {
    && HasText(texts[o]) && Inner(texts[o]).Some?
    && forall b :: 0 <= b < o && IsOpen(texts, b, o) ==> LeavesQuote(texts, b, o)
  }

  /** Line `k` belongs to the block of line `o`. */
  ghost predicate IsInside(texts: seq<string>, o: nat, k: nat)
    requires o < |texts| && k < |texts|
  {
    IsOpen(texts, o, k) && !LeavesQuote(texts, o, k)
  }

  // ----------------------------------------------------- what is looked for

  /** Inside the block of line `o`, line `k` is no fence as the block reads it. */
  predicate IsContent(texts: seq<string>, o: nat, k: nat)
    requires o < |texts| && k < |texts|
  {
    if Depth(texts[o]) == 0 then FenceOf(texts[k]).None?
    else Depth(texts[k]) > Depth(texts[o]) || Inner(texts[k]).None?
  }

  ghost predicate InSomeBlock(texts: seq<string>, k: nat)
    requires k < |texts|
  {
    exists o :: 0 <= o < k && IsInside(texts, o, k)
  }

  /** References are looked for on lines with text: outside every block unless they open one, and on the content of blocks
      whose info string names no shell language. */
  ghost predicate IsLookedAt(texts: seq<string>, k: nat, outside: Outside)
    requires k < |texts|
  {
    && HasText(texts[k])
    && if InSomeBlock(texts, k)
       then exists o :: 0 <= o < k && IsInside(texts, o, k) && IsContent(texts, o, k)
                        && Inner(texts[o]).Some? && !outside.illustrative(Inner(texts[o]).value.rest)
       else Inner(texts[k]).None?
  }

  ghost function References(texts: seq<string>, count: nat, outside: Outside): seq<CodeRef>
    requires count <= |texts|
  {
    Gathered(count, (k: nat) => RefsAt(texts, k, outside))
  }

  /** The references on line `k`, if it is looked at. */
  ghost function RefsAt(texts: seq<string>, k: nat, outside: Outside): seq<CodeRef> {
    if k < |texts| && IsLookedAt(texts, k, outside) then LineRefs(texts[k], k + 1, outside) else []
  }

  ghost function Gathered<E>(n: nat, g: nat -> seq<E>): seq<E> {
    if n == 0 then [] else Gathered(n - 1, g) + g(n - 1)
  }

  // -------------------------------------------------- the state of the scanner

  function ReadLines(texts: seq<string>): (lines: seq<Line>)
    ensures |lines| == |texts| && forall i :: 0 <= i < |texts| ==> lines[i] == LineOf(texts[i])
  {
    seq(|texts|, i requires 0 <= i < |texts| => LineOf(texts[i]))
  }

  /** What the scanner remembers of the line that opened the block. */
  function StateOf(text: string, outside: Outside): State
    requires Inner(text).Some?
  {
    var fence := Inner(text).value;
    InFence(outside.illustrative(fence.rest), fence.marker, fence.length, Depth(text))
  }

  /** Before line `k` the state is that of the one open block, or plain if there is none. */
  ghost predicate Tells(texts: seq<string>, k: nat, block: Option<nat>, state: State, outside: Outside)
    requires k <= |texts|
  {
    match block
    case None => state.Plain? && NoneOpen(texts, k)
    case Some(o) => o < k && IsOpen(texts, o, k) && Inner(texts[o]).Some? && state == StateOf(texts[o], outside)
  }

  ghost predicate NoneOpen(texts: seq<string>, k: nat)
    requires k <= |texts|
  {
    forall o :: 0 <= o < k ==> !IsOpen(texts, o, k)
  }

  lemma SameReading(text: string)
    ensures LineOf(text) == Line(!HasText(text), Depth(text), FenceOf(text), Inner(text), text)
  {
    BlankIffTrimmed(text);
  }

  /** The state tells which lines leave the quote of the block and which close it. */
  lemma StateDecides(texts: seq<string>, o: nat, k: nat, outside: Outside)
    requires o < |texts| && k < |texts| && Inner(texts[o]).Some? && HasText(texts[k])
    ensures var state, line := StateOf(texts[o], outside), LineOf(texts[k]);
            && (Leaves(state, line) <==> LeavesQuote(texts, o, k))
            && (!Leaves(state, line) ==>
                  (ClosesBlock(texts, o, k) <==> !IsExample(state, line) && Ends(state, Literal(state, line))))
  {
    SameReading(texts[k]);
    var state, line := StateOf(texts[o], outside), LineOf(texts[k]);
    if Literal(state, line).Some? { BlankIffTrimmed(Literal(state, line).value.rest); }
  }

  lemma OpenNext(texts: seq<string>, o: nat, k: nat)
    requires o < k < |texts|
    ensures IsOpen(texts, o, k + 1)
       <==> IsOpen(texts, o, k) && !LeavesQuote(texts, o, k) && !ClosesBlock(texts, o, k)
  {
  }

  lemma OpensItself(texts: seq<string>, k: nat)
    requires k < |texts|
    ensures IsOpen(texts, k, k + 1) <==> IsOpener(texts, k)
  {
  }

  lemma OpenIsOpener(texts: seq<string>, o: nat, k: nat)
    requires o < |texts| && k <= |texts| && IsOpen(texts, o, k)
    ensures IsOpener(texts, o) && Inner(texts[o]).Some?
  {
  }

  lemma OpenEarlier(texts: seq<string>, o: nat, j: nat, k: nat)
    requires o < j < k <= |texts| && IsOpen(texts, o, k)
    ensures IsOpen(texts, o, j) && !LeavesQuote(texts, o, j)
  {
  }

  /** There is at most one open block. */
  lemma OneOpen(texts: seq<string>, a: nat, b: nat, k: nat)
    requires a <= b < k <= |texts| && IsOpen(texts, a, k) && IsOpen(texts, b, k)
    ensures a == b
  {
    if a < b {
      OpenIsOpener(texts, b, k);
      OpenEarlier(texts, a, b, k);
    }
  }

  lemma OnlyOneOpen(texts: seq<string>, o: nat, k: nat)
    requires o < k <= |texts| && IsOpen(texts, o, k)
    ensures forall b :: 0 <= b < k && b != o ==> !IsOpen(texts, b, k)
  {
    forall b | 0 <= b < k && b != o
      ensures !IsOpen(texts, b, k)
    {
      if IsOpen(texts, b, k) {
        if b < o { OneOpen(texts, b, o, k); } else { OneOpen(texts, o, b, k); }
      }
    }
  }

  /** Line `k` is read outside every block. */
  ghost predicate IsReadOutside(texts: seq<string>, k: nat)
    requires k < |texts|
  {
    forall b :: 0 <= b < k && IsOpen(texts, b, k) ==> LeavesQuote(texts, b, k)
  }

  /** Such a line opens a block exactly if it is a fence, and nothing else is open then. */
  lemma OutsideNext(texts: seq<string>, k: nat)
    requires k < |texts| && HasText(texts[k]) && IsReadOutside(texts, k)
    ensures if Inner(texts[k]).Some? then IsOpen(texts, k, k + 1) else NoneOpen(texts, k + 1)
  {
    OpensItself(texts, k);
    var n := k + 1;
    forall o | 0 <= o < n
      ensures Inner(texts[k]).None? ==> !IsOpen(texts, o, n)
    {
      if o < k { OpenNext(texts, o, k); }
    }
  }

  lemma BlockEnds(texts: seq<string>, o: nat, k: nat)
    requires o < k < |texts| && IsOpen(texts, o, k) && !LeavesQuote(texts, o, k) && ClosesBlock(texts, o, k)
    ensures NoneOpen(texts, k + 1)
  {
    var n := k + 1;
    forall b | 0 <= b < n
      ensures !IsOpen(texts, b, n)
    {
      NotOpenBehind(texts, o, b, k);
    }
  }

  lemma NotOpenBehind(texts: seq<string>, o: nat, b: nat, k: nat)
    requires o < k < |texts| && b <= k && IsOpen(texts, o, k) && !LeavesQuote(texts, o, k) && ClosesBlock(texts, o, k)
    ensures !IsOpen(texts, b, k + 1)
  {
    if b == k {
      OpensItself(texts, k);
    } else {
      OnlyOneOpen(texts, o, k);
      OpenNext(texts, b, k);
    }
  }

  lemma BlankOpensNothing(texts: seq<string>, k: nat)
    requires k < |texts| && !HasText(texts[k]) && NoneOpen(texts, k)
    ensures NoneOpen(texts, k + 1)
  {
    OpensItself(texts, k);
    var n := k + 1;
    forall b | 0 <= b < n
      ensures !IsOpen(texts, b, n)
    {
      if b < k { OpenNext(texts, b, k); }
    }
  }

  /** What the state says of line `k`, in terms of the open block. */
  lemma OpenDecides(texts: seq<string>, o: nat, k: nat, outside: Outside)
    requires o < |texts| && k < |texts| && Inner(texts[o]).Some? && HasText(texts[k])
    ensures var state, line := StateOf(texts[o], outside), LineOf(texts[k]);
            && (Leaves(state, line) <==> LeavesQuote(texts, o, k))
            && (!LeavesQuote(texts, o, k) ==> Next(state, line, outside) == if ClosesBlock(texts, o, k) then Plain else state)
            && (LeavesQuote(texts, o, k) ==> Next(state, line, outside) == FromPlain(Inner(texts[k]), Depth(texts[k]), outside))
  {
    SameReading(texts[k]);
    StateDecides(texts, o, k, outside);
  }

  lemma PlainDecides(text: string, outside: Outside)
    ensures Next(Plain, LineOf(text), outside) == if HasText(text) then FromPlain(Inner(text), Depth(text), outside) else Plain
  {
    SameReading(text);
  }

  lemma BlankDecides(text: string, state: State, outside: Outside)
    requires !HasText(text)
    ensures Next(state, LineOf(text), outside) == state
  {
    SameReading(text);
  }

  ghost function BlockAfter(texts: seq<string>, k: nat, block: Option<nat>): Option<nat>
    requires k < |texts| && (block.Some? ==> block.value < |texts|)
  {
    if !HasText(texts[k]) then block
    else if block.None? || LeavesQuote(texts, block.value, k) then if Inner(texts[k]).Some? then Some(k) else None
    else if ClosesBlock(texts, block.value, k) then None
    else block
  }

  lemma TellsNext(texts: seq<string>, k: nat, block: Option<nat>, state: State, outside: Outside)
    requires k < |texts| && Tells(texts, k, block, state, outside)
    ensures Tells(texts, k + 1, BlockAfter(texts, k, block), Next(state, LineOf(texts[k]), outside), outside)
  {
    match block
    case None =>
      PlainDecides(texts[k], outside);
      if HasText(texts[k]) { OutsideNext(texts, k); } else { BlankOpensNothing(texts, k); }
    case Some(o) =>
      OpenNext(texts, o, k);
      if !HasText(texts[k]) {
        BlankDecides(texts[k], state, outside);
      } else {
        OpenDecides(texts, o, k, outside);
        if LeavesQuote(texts, o, k) {
          OnlyOneOpen(texts, o, k);
          OutsideNext(texts, k);
        } else if ClosesBlock(texts, o, k) {
          BlockEnds(texts, o, k);
        }
      }
  }

  /** Before every line the scanner remembers just the fence that opened the block. */
  lemma {:induction false} StateTells(texts: seq<string>, k: nat, outside: Outside) returns (block: Option<nat>)
    requires k <= |texts|
    ensures Tells(texts, k, block, After(Plain, ReadLines(texts)[..k], outside), outside)
  {
    if k == 0 {
      block := None;
    } else {
      var before := StateTells(texts, k - 1, outside);
      TellsNext(texts, k - 1, before, After(Plain, ReadLines(texts)[..k - 1], outside), outside);
      NextLine(ReadLines(texts), k - 1, outside);
      block := BlockAfter(texts, k - 1, before);
    }
  }

  lemma InsideIff(texts: seq<string>, k: nat, block: Option<nat>, state: State, outside: Outside)
    requires k < |texts| && Tells(texts, k, block, state, outside)
    ensures forall o :: 0 <= o < k && IsInside(texts, o, k) ==> block == Some(o)
    ensures InSomeBlock(texts, k) <==> block.Some? && !LeavesQuote(texts, block.value, k)
  {
    if block.Some? {
      OnlyOneOpen(texts, block.value, k);
      assert IsInside(texts, block.value, k) <==> !LeavesQuote(texts, block.value, k);
    }
  }

  /** The scanner looks for references exactly on these lines. */
  lemma ScannedIffLookedAt(texts: seq<string>, k: nat, block: Option<nat>, state: State, outside: Outside)
    requires k < |texts| && Tells(texts, k, block, state, outside)
    ensures IsScanned(state, LineOf(texts[k])) <==> IsLookedAt(texts, k, outside)
  {
    SameReading(texts[k]);
    InsideIff(texts, k, block, state, outside);
    if HasText(texts[k]) && block.Some? {
      StateDecides(texts, block.value, k, outside);
      if InSomeBlock(texts, k) { ContentIsScanned(texts, block.value, k, outside); }
    }
  }

  lemma ContentIsScanned(texts: seq<string>, o: nat, k: nat, outside: Outside)
    requires o < k < |texts| && Inner(texts[o]).Some? && !LeavesQuote(texts, o, k) && HasText(texts[k])
    ensures var state, line := StateOf(texts[o], outside), LineOf(texts[k]);
            && (IsContent(texts, o, k) <==> IsExample(state, line) || Literal(state, line).None?)
            && !Leaves(state, line)
  {
    SameReading(texts[k]);
    StateDecides(texts, o, k, outside);
  }

  lemma {:induction false} GatheredInSteps<E>(n: nat, f: nat -> seq<E>, g: nat -> seq<E>)
    requires f(0) == [] && forall k: nat, m: nat :: m == k + 1 <= n ==> f(m) == f(k) + g(k)
    ensures f(n) == Gathered(n, g)
    decreases n
  {
    if n > 0 {
      GatheredInSteps(n - 1, f, g);
      assert f(n) == f(n - 1) + g(n - 1);
    }
  }

  ghost function RefsTo(texts: seq<string>, count: nat, outside: Outside): seq<CodeRef> {
    if count <= |texts| then Refs(Plain, ReadLines(texts)[..count], 1, outside) else []
  }

  lemma RefsAreReferences(texts: seq<string>, count: nat, outside: Outside)
    requires count <= |texts|
    ensures Refs(Plain, ReadLines(texts)[..count], 1, outside) == References(texts, count, outside)
  {
    var f, g := (n: nat) => RefsTo(texts, n, outside), (k: nat) => RefsAt(texts, k, outside);
    forall k: nat, m: nat | m == k + 1 <= count
      ensures f(m) == f(k) + g(k)
    {
      NextReference(texts, k, outside);
    }
    GatheredInSteps(count, f, g);
  }

  lemma NextReference(texts: seq<string>, k: nat, outside: Outside)
    requires k < |texts|
    ensures Refs(Plain, ReadLines(texts)[..k + 1], 1, outside)
         == Refs(Plain, ReadLines(texts)[..k], 1, outside)
            + if IsLookedAt(texts, k, outside) then LineRefs(texts[k], k + 1, outside) else []
  {
    var block := StateTells(texts, k, outside);
    NextLine(ReadLines(texts), k, outside);
    ScannedIffLookedAt(texts, k, block, After(Plain, ReadLines(texts)[..k], outside), outside);
  }

  // ------------------------------------------------------ where blocks end

  /** From line `number` on, what the scanner finds is what it finds in the rest alone. */
  ghost predicate StartsAfresh(texts: seq<string>, number: nat, outside: Outside)
    requires number <= |texts|
  {
    var lines := ReadLines(texts);
    && After(Plain, lines, outside) == After(Plain, lines[number..], outside)
    && Refs(Plain, lines, 1, outside)
       == Refs(Plain, lines[..number], 1, outside) + Refs(Plain, lines[number..], number + 1, outside)
  }

  lemma EndingStartsAfresh(texts: seq<string>, k: nat, outside: Outside)
    requires k < |texts|
    requires var state := After(Plain, ReadLines(texts)[..k], outside);
             state.InFence? && EndsBlock(state, LineOf(texts[k]))
    ensures StartsAfresh(texts, if Leaves(After(Plain, ReadLines(texts)[..k], outside), LineOf(texts[k])) then k else k + 1, outside)
  {
    ResumeAfter(ReadLines(texts), k, outside);
  }

  lemma TellsOpen(texts: seq<string>, o: nat, k: nat, block: Option<nat>, state: State, outside: Outside)
    requires o < k <= |texts| && IsOpen(texts, o, k) && Tells(texts, k, block, state, outside)
    ensures Inner(texts[o]).Some? && state == StateOf(texts[o], outside)
  {
    OpenIsOpener(texts, o, k);
    OnlyOneOpen(texts, o, k);
  }

  lemma StateOfBlock(texts: seq<string>, o: nat, k: nat, outside: Outside)
    requires o < k <= |texts| && IsOpen(texts, o, k)
    ensures Inner(texts[o]).Some? && After(Plain, ReadLines(texts)[..k], outside) == StateOf(texts[o], outside)
  {
    var block := StateTells(texts, k, outside);
    TellsOpen(texts, o, k, block, After(Plain, ReadLines(texts)[..k], outside), outside);
  }

  /** A line with text in fewer quotes than the open block starts everything afresh, itself included. */
  lemma LeavingStartsAfresh(texts: seq<string>, o: nat, k: nat, outside: Outside)
    requires o < k < |texts| && IsOpen(texts, o, k) && HasText(texts[k]) && Depth(texts[k]) < Depth(texts[o])
    ensures StartsAfresh(texts, k, outside)
  {
    StateOfBlock(texts, o, k, outside);
    StateDecides(texts, o, k, outside);
    SameReading(texts[k]);
    EndingStartsAfresh(texts, k, outside);
  }

  /** A line that closes the open block as the block reads it starts everything behind it afresh. */
  lemma ClosingStartsAfresh(texts: seq<string>, o: nat, k: nat, outside: Outside)
    requires o < k < |texts| && IsOpen(texts, o, k) && ClosesBlock(texts, o, k)
    ensures StartsAfresh(texts, k + 1, outside)
  {
    OpenIsOpener(texts, o, k);
    StateOfBlock(texts, o, k, outside);
    StateDecides(texts, o, k, outside);
    SameReading(texts[k]);
    ClosingStays(texts, o, k);
    EndingStartsAfresh(texts, k, outside);
  }

  lemma ClosingStays(texts: seq<string>, o: nat, k: nat)
    requires o < |texts| && k < |texts| && ClosesBlock(texts, o, k)
    ensures !LeavesQuote(texts, o, k)
  {
  }

  // --------------------------------------------------------- the whole text

  /** The references of a text are those of the lines that are looked at, in their order. */
  lemma CodeRefsAreReferences(body: string, outside: Outside)
    ensures CodeRefs(body, outside) == References(Split(body, '\n'), |Split(body, '\n')|, outside)
  {
    var texts := Split(body, '\n');
    RefsAreReferences(texts, |texts|, outside);
    assert ReadLines(texts)[..|texts|] == Lines(body);
  }

  method MarkdownCodeRefs(body: string, outside: Outside) returns (refs: seq<CodeRef>)
    ensures refs == CodeRefs(body, outside)
    ensures refs == References(Split(body, '\n'), |Split(body, '\n')|, outside)
  {
    var texts := Split(body, '\n');
    ghost var lines := Lines(body);
    var scanner := new Scanner(outside);
    for index := 0 to |texts|
      invariant fresh(scanner) && scanner.Valid() && scanner.outside == outside
      invariant scanner.State() == After(Plain, lines[..index], outside)
      invariant scanner.refs == Refs(Plain, lines[..index], 1, outside)
    {
      scanner.Visit(texts[index], index);
      NextLine(lines, index, outside);
    }
    assert lines[..|lines|] == lines;
    CodeRefsAreReferences(body, outside);
    return scanner.refs;
  }
}
