/** Decks of lines in a fixed order of sections: the grammar, and the one-pass recogniser that equals it. */
module SectionGrammar {
  import opened Text

  /** `allows` limits, while a section is read, how many data lines it already holds. */
  datatype Rules<!L> = Rules(
    isHead: L -> bool, headFits: (nat, L) -> bool, dataFits: (nat, L) -> bool,
    within: (nat, nat) -> bool, allows: (nat, nat) -> bool)

  /** A section that may end with `n` data lines may be read up to them. */
  ghost predicate Coherent<L>(r: Rules<L>) {
    forall i: nat, n: nat, prior: nat :: r.within(i, n) && prior < n ==> r.allows(i, prior)
  }

  // ------------------------------------------------------------ the grammar

  predicate IsData<L>(r: Rules<L>, i: nat, line: L) {
    !r.isHead(line) && r.dataFits(i, line)
  }

  predicate IsHeadOf<L>(r: Rules<L>, i: nat, line: L) {
    r.isHead(line) && r.headFits(i, line)
  }

  /** A section begun: a directive of section `i` and data lines of its own pattern. */
  predicate Begun<L>(r: Rules<L>, i: nat, section: seq<L>) {
    section != [] && IsHeadOf(r, i, section[0]) && forall k :: 1 <= k < |section| ==> IsData(r, i, section[k])
  }

  predicate Complete<L>(r: Rules<L>, i: nat, section: seq<L>) {
    Begun(r, i, section) && r.within(i, |section| - 1)
  }

  function Flatten<L>(sections: seq<seq<L>>): seq<L> {
    if sections == [] then [] else Flatten(sections[..|sections| - 1]) + sections[|sections| - 1]
  }

  ghost predicate IsDeck<L>(r: Rules<L>, count: nat, sections: seq<seq<L>>, lines: seq<L>) {
    |sections| == count && Flatten(sections) == lines && forall i :: 0 <= i < count ==> Complete(r, i, sections[i])
  }

  /** The lines are `count` complete sections in their order. */
  ghost predicate Accepts<L(!new)>(r: Rules<L>, count: nat, lines: seq<L>) {
    exists sections :: IsDeck(r, count, sections, lines)
  }

  // --------------------------------------------------------- the recogniser

  /** How many directives were read, and how many data lines since the last one. */
  datatype Place = Place(ordinal: nat, data: nat)

  predicate MayEnd<L>(r: Rules<L>, place: Place) {
    place.ordinal > 0 ==> r.within(place.ordinal - 1, place.data)
  }

  function Advance<L>(r: Rules<L>, place: Place, line: L): Option<Place> {
    if !r.isHead(line) then
      if place.ordinal > 0 && r.dataFits(place.ordinal - 1, line) && r.allows(place.ordinal - 1, place.data)
      then Some(Place(place.ordinal, place.data + 1)) else None
    else if MayEnd(r, place) && r.headFits(place.ordinal, line) then Some(Place(place.ordinal + 1, 0))
    else None
  }

  function Reach<L>(r: Rules<L>, lines: seq<L>): Option<Place> {
    if lines == [] then Some(Place(0, 0))
    else
      var before := Reach(r, lines[..|lines| - 1]);
      if before.None? then None else Advance(r, before.value, lines[|lines| - 1])
  }

  predicate Recognises<L>(r: Rules<L>, count: nat, lines: seq<L>) {
    var place := Reach(r, lines);
    place.Some? && MayEnd(r, place.value) && place.value.ordinal == count
  }

  // --------------------------------------------- what is recognised is a deck

  /** The lines read so far are complete sections and one begun. */
  ghost predicate Parsed<L>(r: Rules<L>, lines: seq<L>, place: Place, sections: seq<seq<L>>) {
    && |sections| == place.ordinal && Flatten(sections) == lines
    && (forall i :: 0 <= i < |sections| - 1 ==> Complete(r, i, sections[i]))
    && (sections != [] ==>
          Begun(r, |sections| - 1, sections[|sections| - 1]) && place.data == |sections[|sections| - 1]| - 1)
  }

  lemma FlattenMore<L>(sections: seq<seq<L>>, section: seq<L>)
    ensures Flatten(sections + [section]) == Flatten(sections) + section
  {
    assert (sections + [section])[..|sections|] == sections;
  }

  lemma ParsedData<L>(r: Rules<L>, lines: seq<L>, place: Place, sections: seq<seq<L>>, line: L) returns (more: seq<seq<L>>)
    requires Parsed(r, lines, place, sections) && place.ordinal > 0 && IsData(r, place.ordinal - 1, line)
    ensures Parsed(r, lines + [line], Place(place.ordinal, place.data + 1), more)
  {
    var init, last := sections[..|sections| - 1], sections[|sections| - 1];
    more := init + [last + [line]];
    assert sections == init + [last];
    FlattenMore(init, last);
    FlattenMore(init, last + [line]);
    assert Flatten(init) + (last + [line]) == lines + [line];
    assert Begun(r, |init|, last + [line]) by {
      assert (last + [line])[0] == last[0];
    }
  }

  lemma ParsedHead<L>(r: Rules<L>, lines: seq<L>, place: Place, sections: seq<seq<L>>, line: L)
    requires Parsed(r, lines, place, sections) && MayEnd(r, place) && IsHeadOf(r, place.ordinal, line)
    ensures Parsed(r, lines + [line], Place(place.ordinal + 1, 0), sections + [[line]])
  {
    FlattenMore(sections, [line]);
    forall i | 0 <= i < |sections|
      ensures Complete(r, i, (sections + [[line]])[i])
    {
      assert (sections + [[line]])[i] == sections[i];
    }
  }

  lemma {:induction false} ReachIsParsed<L>(r: Rules<L>, lines: seq<L>) returns (sections: seq<seq<L>>)
    requires Reach(r, lines).Some?
    ensures Parsed(r, lines, Reach(r, lines).value, sections)
  {
    if lines == [] {
      sections := [];
    } else {
      var init, last := lines[..|lines| - 1], lines[|lines| - 1];
      var parsed := ReachIsParsed(r, init);
      var place := Reach(r, init).value;
      assert lines == init + [last];
      if r.isHead(last) {
        ParsedHead(r, init, place, parsed, last);
        sections := parsed + [[last]];
      } else {
        sections := ParsedData(r, init, place, parsed, last);
      }
    }
  }

  // ----------------------------------------------- every deck is recognised

  lemma ReachNext<L>(r: Rules<L>, lines: seq<L>, line: L)
    ensures Reach(r, lines + [line])
         == if Reach(r, lines).None? then None else Advance(r, Reach(r, lines).value, line)
  {
    assert (lines + [line])[..|lines|] == lines;
  }

  /** Reading a complete section leads from its directive to its last data line. */
  lemma {:induction false} ReachInSection<L>(r: Rules<L>, lines: seq<L>, i: nat, section: seq<L>, k: nat)
    requires Coherent(r) && Complete(r, i, section) && 1 <= k <= |section|
    requires Reach(r, lines).Some? && Reach(r, lines).value.ordinal == i && MayEnd(r, Reach(r, lines).value)
    ensures Reach(r, lines + section[..k]) == Some(Place(i + 1, k - 1))
  {
    if k == 1 {
      ReachNext(r, lines, section[0]);
      assert section[..1] == [section[0]];
    } else {
      ReachInSection(r, lines, i, section, k - 1);
      ReachNext(r, lines + section[..k - 1], section[k - 1]);
      assert lines + section[..k] == lines + section[..k - 1] + [section[k - 1]];
      assert IsData(r, i, section[k - 1]) && r.allows(i, k - 2);
    }
  }

  lemma {:induction false} ReachSections<L>(r: Rules<L>, sections: seq<seq<L>>)
    requires Coherent(r) && forall i :: 0 <= i < |sections| ==> Complete(r, i, sections[i])
    ensures Recognises(r, |sections|, Flatten(sections))
  {
    if sections != [] {
      var init, last := sections[..|sections| - 1], sections[|sections| - 1];
      ReachSections(r, init);
      assert Complete(r, |init|, last);
      ReachInSection(r, Flatten(init), |init|, last, |last|);
      assert last[..|last|] == last;
    }
  }

  /** One pass over the lines recognises exactly the decks. */
  lemma RecognisesIffAccepts<L(!new)>(r: Rules<L>, count: nat, lines: seq<L>)
    requires Coherent(r)
    ensures Recognises(r, count, lines) <==> Accepts(r, count, lines)
  {
    if Recognises(r, count, lines) {
      var sections := ReachIsParsed(r, lines);
      assert IsDeck(r, count, sections, lines);
    }
    if sections :| IsDeck(r, count, sections, lines) {
      ReachSections(r, sections);
    }
  }

  /** A deck splits into its sections in one way only. */
  lemma {:induction false} DeckIsUnambiguous<L>(r: Rules<L>, count: nat, a: seq<seq<L>>, b: seq<seq<L>>, lines: seq<L>)
    requires IsDeck(r, count, a, lines) && IsDeck(r, count, b, lines)
    ensures a == b
  {
    if count > 0 {
      var x, y := a[count - 1], b[count - 1];
      assert Complete(r, count - 1, x) && Complete(r, count - 1, y);
      LastHead(r, count - 1, Flatten(a[..count - 1]), x, Flatten(b[..count - 1]), y);
      assert a == a[..count - 1] + [x] && b == b[..count - 1] + [y];
      DeckIsUnambiguous(r, count - 1, a[..count - 1], b[..count - 1], Flatten(a[..count - 1]));
    }
  }

  /** A section holds one directive, at its start. */
  lemma HeadStartsSection<L>(r: Rules<L>, i: nat, before: seq<L>, section: seq<L>, p: nat)
    requires Begun(r, i, section) && |before| <= p < |before + section| && r.isHead((before + section)[p])
    ensures p == |before|
  {
    assert (before + section)[p] == section[p - |before|];
  }

  /** The last directive of the lines starts the last section. */
  lemma LastHead<L>(r: Rules<L>, i: nat, before: seq<L>, x: seq<L>, before': seq<L>, y: seq<L>)
    requires Begun(r, i, x) && Begun(r, i, y) && before + x == before' + y
    ensures before == before' && x == y
  {
    var lines := before + x;
    assert lines[|before|] == x[0] && lines[|before'|] == y[0];
    if |before| <= |before'| {
      HeadStartsSection(r, i, before, x, |before'|);
    } else {
      HeadStartsSection(r, i, before', y, |before|);
    }
    assert before == lines[..|before|] && before' == lines[..|before'|];
    assert x == lines[|before|..] && y == lines[|before'|..];
  }
}
