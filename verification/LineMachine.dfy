/** Machines that read lines one by one, change state and emit output. */
module LineMachine {

  function FinalState<S, L>(next: (S, L) -> S, state: S, lines: seq<L>): S {
    if lines == [] then state else next(FinalState(next, state, lines[..|lines| - 1]), lines[|lines| - 1])
  }

  /** What the lines emit, when they are numbered from `first` on. */
  function Output<S, L, R>(next: (S, L) -> S, emit: (S, L, nat) -> seq<R>, state: S, lines: seq<L>, first: nat): seq<R> {
    if lines == [] then []
    else
      var init := lines[..|lines| - 1];
      Output(next, emit, state, init, first) + emit(FinalState(next, state, init), lines[|lines| - 1], first + |init|)
  }

  lemma {:induction false} FinalAppend<S, L>(next: (S, L) -> S, state: S, a: seq<L>, b: seq<L>)
    ensures FinalState(next, state, a + b) == FinalState(next, FinalState(next, state, a), b)
    decreases |b|
  {
    if b == [] {
      assert a + b == a;
    } else {
      FinalAppend(next, state, a, b[..|b| - 1]);
      assert (a + b)[..|a + b| - 1] == a + b[..|b| - 1];
    }
  }

  lemma {:induction false} OutputAppend<S, L, R>(next: (S, L) -> S, emit: (S, L, nat) -> seq<R>, state: S,
                                                 a: seq<L>, b: seq<L>, first: nat)
    ensures Output(next, emit, state, a + b, first)
         == Output(next, emit, state, a, first) + Output(next, emit, FinalState(next, state, a), b, first + |a|)
    decreases |b|
  {
    if b == [] {
      assert a + b == a;
    } else {
      var init := b[..|b| - 1];
      OutputAppend(next, emit, state, a, init, first);
      FinalAppend(next, state, a, init);
      assert (a + b)[..|a + b| - 1] == a + init;
    }
  }

  /** Two states that a first part makes equal, with equal output, cannot be told apart afterwards. */
  lemma SameAfterHead<S, L, R>(next: (S, L) -> S, emit: (S, L, nat) -> seq<R>, s: S, t: S,
                               head: seq<L>, rest: seq<L>, first: nat)
    requires FinalState(next, s, head) == FinalState(next, t, head)
    requires Output(next, emit, s, head, first) == Output(next, emit, t, head, first)
    ensures FinalState(next, s, head + rest) == FinalState(next, t, head + rest)
    ensures Output(next, emit, s, head + rest, first) == Output(next, emit, t, head + rest, first)
  {
    FinalAppend(next, s, head, rest);
    FinalAppend(next, t, head, rest);
    OutputAppend(next, emit, s, head, rest, first);
    OutputAppend(next, emit, t, head, rest, first);
  }

  lemma OneMore<S, L, R>(next: (S, L) -> S, emit: (S, L, nat) -> seq<R>, state: S, lines: seq<L>, line: L, first: nat)
    ensures FinalState(next, state, lines + [line]) == next(FinalState(next, state, lines), line)
    ensures Output(next, emit, state, lines + [line], first)
         == Output(next, emit, state, lines, first) + emit(FinalState(next, state, lines), line, first + |lines|)
  {
    assert (lines + [line])[..|lines|] == lines;
  }

  ghost predicate IsAdditive<R(!new)>(f: seq<R> -> seq<R>) {
    f([]) == [] && forall a, b :: f(a) + f(b) == f(a + b)
  }

  /** If each line numbered `shift` later emits the image of what it emits, so do all lines together. */
  lemma {:induction false} OutputShift<S(!new), L(!new), R(!new)>(
    next: (S, L) -> S, emit: (S, L, nat) -> seq<R>, f: seq<R> -> seq<R>, state: S, lines: seq<L>, first: nat, shift: nat)
    requires IsAdditive(f) && forall s, l, n: nat :: emit(s, l, n + shift) == f(emit(s, l, n))
    ensures Output(next, emit, state, lines, first + shift) == f(Output(next, emit, state, lines, first))
  {
    if lines != [] {
      var init, last := lines[..|lines| - 1], lines[|lines| - 1];
      OutputShift(next, emit, f, state, init, first, shift);
      assert emit(FinalState(next, state, init), last, first + |init| + shift)
          == f(emit(FinalState(next, state, init), last, first + |init|));
    }
  }

  /** After a part that leads back to the state it started from, the rest is read as if it stood alone. */
  lemma OutputComposes<S(!new), L(!new), R(!new)>(
    next: (S, L) -> S, emit: (S, L, nat) -> seq<R>, f: seq<R> -> seq<R>, state: S, a: seq<L>, b: seq<L>, first: nat)
    requires IsAdditive(f) && forall s, l, n: nat :: emit(s, l, n + |a|) == f(emit(s, l, n))
    requires FinalState(next, state, a) == state
    ensures Output(next, emit, state, a + b, first)
         == Output(next, emit, state, a, first) + f(Output(next, emit, state, b, first))
  {
    OutputShift(next, emit, f, state, b, first, |a|);
    AppendFrom(next, emit, state, a, b, first);
  }

  lemma AppendFrom<S, L, R>(next: (S, L) -> S, emit: (S, L, nat) -> seq<R>, state: S, a: seq<L>, b: seq<L>, first: nat)
    requires FinalState(next, state, a) == state
    ensures Output(next, emit, state, a + b, first)
         == Output(next, emit, state, a, first) + Output(next, emit, state, b, first + |a|)
  {
    OutputAppend(next, emit, state, a, b, first);
  }
}
