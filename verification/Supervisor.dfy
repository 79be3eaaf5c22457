/** The supervisor of an untrusted child process: bounded captures, reaping, one validated output, a marker. */
module Supervisor {
  import opened Text
  import opened Bytes

  // ---------------------------------------------------------------- capture

  function Joined(chunks: seq<seq<Byte>>): seq<Byte> {
    if chunks == [] then [] else Joined(chunks[..|chunks| - 1]) + chunks[|chunks| - 1]
  }

  function Min(a: nat, b: nat): nat {
    if a < b then a else b
  }

  class BoundedCapture {
    const limit: nat
    var byteCount: nat
    var truncated: bool
    /** The bytes that the digest has taken in. */
    var digested: seq<Byte>
    var chunks: seq<seq<Byte>>
    /** Everything observed. */
    ghost var seen: seq<Byte>

    /** The capture is the first `limit` bytes of what was observed, however it was cut into chunks. */
    ghost predicate Valid()
      reads this
    {
      && Joined(chunks) == seen[..Min(limit, |seen|)] && digested == Joined(chunks)
      && byteCount == |Joined(chunks)| && (truncated <==> |seen| > limit)
    }

    constructor (limit: nat)
      ensures Valid() && this.limit == limit && seen == []
    {
      this.limit := limit;
      byteCount, truncated, digested, chunks, seen := 0, false, [], [], [];
    }

    method Observe(chunk: seq<Byte>)
      requires Valid()
      modifies this
      ensures Valid() && seen == old(seen) + chunk
    {
      var remaining := if limit > byteCount then limit - byteCount else 0;
      var captured := chunk[..Min(remaining, |chunk|)];
      digested := digested + captured;
      if captured != [] {
        assert (chunks + [captured])[..|chunks|] == chunks;
        chunks := chunks + [captured];
      }
      byteCount := byteCount + |captured|;
      if |chunk| > remaining { truncated := true; }
      CapturedPrefix(seen, chunk, limit);
      seen := seen + chunk;
    }

    method Contents() returns (r: seq<Byte>)
      requires Valid()
      ensures r == seen[..Min(limit, |seen|)]
    {
      r := Joined(chunks);
    }
  }

  lemma CapturedPrefix(seen: seq<Byte>, chunk: seq<Byte>, limit: nat)
    ensures var remaining := limit - Min(limit, |seen|);
            seen[..Min(limit, |seen|)] + chunk[..Min(remaining, |chunk|)]
            == (seen + chunk)[..Min(limit, |seen + chunk|)]
  {
  }

  // ---------------------------------------------------------------- streams

  datatype Stream = Stdout | Stderr

  /** What a read of a ready pipe gives; an empty chunk is the end of the stream. */
  datatype Answer = Chunk(bytes: seq<Byte>) | Blocked | Broken

  datatype Ready = Ready(stream: Stream, answer: Answer)

  /** One turn of the loop: the clock, the pipes that `select` reports, and whether the child has exited. */
  datatype Round = Round(expired: bool, ready: seq<Ready>, exited: bool)

  /** The stream has been read to its end. */
  predicate Ended(answers: seq<Ready>, stream: Stream) {
    Ready(stream, Chunk([])) in answers
  }

  /** The bytes read from a stream, up to its end. */
  function Received(answers: seq<Ready>, stream: Stream): seq<Byte> {
    if answers == [] then []
    else
      var init, last := answers[..|answers| - 1], answers[|answers| - 1];
      if last.stream == stream && last.answer.Chunk? && !Ended(init, stream) then Received(init, stream) + last.answer.bytes
      else Received(init, stream)
  }

  lemma ReceivedNext(answers: seq<Ready>, next: Ready, stream: Stream)
    ensures Ended(answers + [next], stream) <==> Ended(answers, stream) || next == Ready(stream, Chunk([]))
    ensures Received(answers + [next], stream)
         == if next.stream == stream && next.answer.Chunk? && !Ended(answers, stream) then Received(answers, stream) + next.answer.bytes
            else Received(answers, stream)
  {
    assert (answers + [next])[..|answers|] == answers;
  }

  function Answers(rounds: seq<Round>): seq<Ready> {
    if rounds == [] then [] else Answers(rounds[..|rounds| - 1]) + rounds[|rounds| - 1].ready
  }

  datatype Status =
    | SourceRejected | SubreaperUnavailable | ChildStartFailed | WallTimeExceeded | LogLimitExceeded
    | InventoryFailed | CleanupFailed | ChildFailed | OutputRejected | MarkerFailed | Done

  datatype LoopEnd = Finished | Failed | StillRunning

  const MAXIMUM_LOG_BYTES := 65536

  class Reader {
    const stdout: BoundedCapture
    const stderr: BoundedCapture
    /** The streams registered with the selector. */
    var open: set<Stream>
    var terminal: Option<Status>
    /** Whatever `select` and `read` answered so far. */
    ghost var answers: seq<Ready>
    /** A turn of the loop found the time used up. */
    ghost var late: bool

    ghost predicate Valid()
      reads this, stdout, stderr
    {
      && stdout != stderr && stdout.Valid() && stderr.Valid()
      && stdout.limit == MAXIMUM_LOG_BYTES && stderr.limit == MAXIMUM_LOG_BYTES
      && stdout.seen == Received(answers, Stdout) && stderr.seen == Received(answers, Stderr)
      && (terminal.None? <==> !late && !stdout.truncated && !stderr.truncated)
      && (terminal == Some(WallTimeExceeded) <==> late)
      && (terminal.Some? ==> terminal.value.WallTimeExceeded? || terminal.value.LogLimitExceeded?)
    }

    /** The registered streams are the ones not read to their end. */
    ghost predicate Tracks()
      reads this
    {
      forall stream :: stream in open <==> !Ended(answers, stream)
    }

    constructor ()
      ensures Valid() && Tracks() && answers == [] && !late && open == {Stdout, Stderr}
      ensures fresh(stdout) && fresh(stderr)
    {
      stdout := new BoundedCapture(MAXIMUM_LOG_BYTES);
      stderr := new BoundedCapture(MAXIMUM_LOG_BYTES);
      open, terminal, answers, late := {Stdout, Stderr}, None, [], false;
      new;
      forall stream: Stream
        ensures stream in open <==> !Ended(answers, stream)
      {
        match stream
        case Stdout =>
        case Stderr =>
      }
    }

    function CaptureOf(stream: Stream): BoundedCapture {
      if stream.Stdout? then stdout else stderr
    }

    /** Reads one ready pipe. */
    method Read(ready: Ready) returns (failed: bool)
      requires Valid() && Tracks()
      modifies this, stdout, stderr
      ensures Valid() && Tracks() && answers == old(answers) + [ready] && late == old(late)
      ensures open <= old(open) && (failed ==> ready.answer.Broken?)
    {
      ReceivedNext(answers, ready, Stdout);
      ReceivedNext(answers, ready, Stderr);
      ghost var before := answers;
      answers := answers + [ready];
      if ready.stream !in open || ready.answer.Blocked? { return false; }
      if ready.answer.Broken? { return true; }
      var chunk := ready.answer.bytes;
      if chunk == [] {
        open := open - {ready.stream};
        assert Received(before, ready.stream) + [] == Received(before, ready.stream);
        return false;
      }
      var capture := CaptureOf(ready.stream);
      capture.Observe(chunk);
      if capture.truncated && terminal.None? {
        terminal := Some(LogLimitExceeded);
      }
      return false;
    }

    method ReadAll(ready: seq<Ready>) returns (failed: bool)
      requires Valid() && Tracks()
      modifies this, stdout, stderr
      ensures Valid() && Tracks() && late == old(late) && open <= old(open)
      ensures !failed ==> answers == old(answers) + ready
      ensures failed ==> HasBroken(ready)
    {
      for i := 0 to |ready|
        invariant Valid() && Tracks() && late == old(late) && open <= old(open)
        invariant answers == old(answers) + ready[..i]
      {
        var broken := Read(ready[i]);
        if broken { return true; }
        assert ready[..i + 1] == ready[..i] + [ready[i]];
      }
      assert ready[..|ready|] == ready;
      return false;
    }

    /** One turn: the deadline first, then every ready pipe. */
    method Turn(round: Round) returns (failed: bool)
      requires Valid() && Tracks()
      modifies this, stdout, stderr
      ensures Valid() && Tracks() && late == (old(late) || round.expired)
      ensures if failed then HasBroken(round.ready) else answers == old(answers) + round.ready
    {
      if round.expired {
        terminal := Some(WallTimeExceeded);
        late := true;
      }
      failed := ReadAll(round.ready);
    }

    /** The loop over the pipes; a turn is `rounds[used]`. */
    method Drain(rounds: seq<Round>) returns (end: LoopEnd, ghost used: nat)
      requires Valid() && Tracks() && answers == [] && !late
      modifies this, stdout, stderr
      ensures Valid() && used <= |rounds|
      ensures end.Finished? ==>
        && answers == Answers(rounds[..used]) && (late <==> AnyExpired(rounds[..used]))
        && (terminal.None? ==> Ended(answers, Stdout) && Ended(answers, Stderr))
      ensures end.Finished? ==> IsFirstStop(rounds, used)
      ensures end.StillRunning? ==> forall m :: 0 <= m <= |rounds| ==> !StopsAfter(rounds, m)
      ensures end.Failed? ==> AnyBroken(rounds)
    {
      var i := 0;
      while open != {}
        invariant i <= |rounds| && Valid() && Tracks()
        invariant answers == Answers(rounds[..i]) && (late <==> AnyExpired(rounds[..i]))
        invariant NotYet(rounds, i)
        decreases |rounds| - i
      {
        SomethingOpen();
        NotHere(rounds, i);
        if i == |rounds| { return StillRunning, i; }
        var failed, stop := TakeTurn(rounds, i);
        if failed { return Failed, i; }
        i := i + 1;
        if stop {
          open := {};
          return Finished, i;
        }
      }
      return Finished, i;
    }

    lemma SomethingOpen()
      requires open != {}
      ensures Stdout in open || Stderr in open
    {
      var stream :| stream in open;
      assert stream == Stdout || stream == Stderr;
    }

    /** One turn, and whether the loop stops waiting for the pipes after it. */
    method TakeTurn(rounds: seq<Round>, i: nat) returns (failed: bool, stop: bool)
      requires Valid() && Tracks() && i < |rounds|
      requires answers == Answers(rounds[..i]) && (late <==> AnyExpired(rounds[..i]))
      modifies this, stdout, stderr
      ensures Valid() && (failed ==> AnyBroken(rounds))
      ensures !failed ==> Tracks() && answers == Answers(rounds[..i + 1]) && (late <==> AnyExpired(rounds[..i + 1]))
      ensures !failed ==> (stop <==> StopsByExit(rounds, i + 1)) && (stop ==> terminal.Some?)
    {
      ExpiredNext(rounds, i);
      failed := Turn(rounds[i]);
      stop := terminal.Some? && rounds[i].exited;
    }
  }

  /** A terminal status is set, and the child has exited. */
  predicate StopsByExit(rounds: seq<Round>, n: nat)
    requires n <= |rounds|
  {
    n > 0 && rounds[n - 1].exited && !InTime(rounds[..n])
  }

  /** The loop ends after `n` turns: both streams are at their end, or it no longer waits for them. */
  predicate StopsAfter(rounds: seq<Round>, n: nat)
    requires n <= |rounds|
  {
    (Ended(Answers(rounds[..n]), Stdout) && Ended(Answers(rounds[..n]), Stderr)) || StopsByExit(rounds, n)
  }

  /** The loop has not ended before turn `i`, nor for the exit of the child there. */
  ghost predicate NotYet(rounds: seq<Round>, i: nat) {
    i <= |rounds| && !StopsByExit(rounds, i) && forall m :: 0 <= m < i ==> !StopsAfter(rounds, m)
  }

  lemma NotHere(rounds: seq<Round>, i: nat)
    requires NotYet(rounds, i) && (!Ended(Answers(rounds[..i]), Stdout) || !Ended(Answers(rounds[..i]), Stderr))
    ensures forall m :: 0 <= m <= i ==> !StopsAfter(rounds, m)
  {
  }

  predicate IsFirstStop(rounds: seq<Round>, n: nat) {
    n <= |rounds| && StopsAfter(rounds, n) && forall m :: 0 <= m < n ==> !StopsAfter(rounds, m)
  }

  predicate HasBroken(ready: seq<Ready>) {
    exists i :: 0 <= i < |ready| && ready[i].answer.Broken?
  }

  predicate AnyBroken(rounds: seq<Round>) {
    exists i :: 0 <= i < |rounds| && HasBroken(rounds[i].ready)
  }

  predicate AnyExpired(rounds: seq<Round>) {
    exists i :: 0 <= i < |rounds| && IsExpired(rounds, i)
  }

  predicate IsExpired(rounds: seq<Round>, i: nat)
    requires i < |rounds|
  {
    rounds[i].expired
  }

  lemma ExpiredNext(rounds: seq<Round>, i: nat)
    requires i < |rounds|
    ensures AnyExpired(rounds[..i + 1]) <==> AnyExpired(rounds[..i]) || rounds[i].expired
    ensures Answers(rounds[..i + 1]) == Answers(rounds[..i]) + rounds[i].ready
  {
    assert rounds[..i + 1][..i] == rounds[..i] && rounds[..i + 1][i] == rounds[i];
    if rounds[i].expired {
      assert IsExpired(rounds[..i + 1], i);
    }
    if AnyExpired(rounds[..i]) {
      var k :| 0 <= k < i && IsExpired(rounds[..i], k);
      assert IsExpired(rounds[..i + 1], k);
    }
    if AnyExpired(rounds[..i + 1]) {
      var k :| 0 <= k < i + 1 && IsExpired(rounds[..i + 1], k);
      assert k < i ==> IsExpired(rounds[..i], k);
    }
  }

  lemma ExpiredPrefix(rounds: seq<Round>, k: nat)
    requires k <= |rounds|
    ensures AnyExpired(rounds[..k]) ==> AnyExpired(rounds)
  {
    if AnyExpired(rounds[..k]) {
      var i :| 0 <= i < k && IsExpired(rounds[..k], i);
      assert IsExpired(rounds, i);
    }
  }

  lemma {:induction false} ReceivedAppend(a: seq<Ready>, b: seq<Ready>, stream: Stream)
    ensures |Received(a, stream)| <= |Received(a + b, stream)|
    decreases |b|
  {
    if b == [] {
      assert a + b == a;
    } else {
      ReceivedAppend(a, b[..|b| - 1], stream);
      ReceivedNext(a + b[..|b| - 1], b[|b| - 1], stream);
      assert a + b == a + b[..|b| - 1] + [b[|b| - 1]];
    }
  }

  lemma {:induction false} ReceivedGrows(rounds: seq<Round>, k: nat, stream: Stream)
    requires k <= |rounds|
    ensures |Received(Answers(rounds[..k]), stream)| <= |Received(Answers(rounds), stream)|
  {
    if k == |rounds| {
      assert rounds[..k] == rounds;
    } else {
      var init := rounds[..|rounds| - 1];
      ReceivedGrows(init, k, stream);
      assert init[..k] == rounds[..k];
      ReceivedAppend(Answers(init), rounds[|rounds| - 1].ready, stream);
    }
  }

  // -------------------------------------------------------------- descendants

  /** One turn of the reaping loop: the direct children before and after the kills; an inventory may be unreadable. */
  datatype Sweep = Sweep(before: Option<set<nat>>, killRefused: bool, after: Option<set<nat>>)

  datatype Reaping = Closed | NotClosed | Unreadable

  /** Closed exactly when some inventory after a round of kills is empty before the time is used up or a call fails. */
  method TerminateAndReap(sweeps: seq<Sweep>) returns (r: Reaping)
    ensures r.Closed? <==> SomeSweepEmpties(sweeps)
    ensures r.Unreadable? <==> exists k :: 0 <= k < |sweeps| && FailsAt(sweeps, k)
  {
    for i := 0 to |sweeps|
      invariant forall k :: 0 <= k < i ==> Readable(sweeps[k]) && sweeps[k].after != Some({})
    {
      if sweeps[i].before.None? || sweeps[i].killRefused || sweeps[i].after.None? {
        assert FailsAt(sweeps, i);
        return Unreadable;
      }
      if sweeps[i].after.value == {} {
        assert Empties(sweeps, i);
        return Closed;
      }
    }
    return NotClosed;
  }

  /** The first sweep that fails, before which children were always left. */
  predicate FailsAt(sweeps: seq<Sweep>, k: nat)
    requires k < |sweeps|
  {
    !Readable(sweeps[k]) && forall j :: 0 <= j < k ==> Readable(sweeps[j]) && sweeps[j].after != Some({})
  }

  predicate Readable(sweep: Sweep) {
    sweep.before.Some? && !sweep.killRefused && sweep.after.Some?
  }

  /** No child is left after sweep `k`, and every inventory up to then was readable. */
  predicate Empties(sweeps: seq<Sweep>, k: nat)
    requires k < |sweeps|
  {
    sweeps[k].after == Some({}) && forall j :: 0 <= j <= k ==> Readable(sweeps[j])
  }

  // -------------------------------------------------------------- the machine

  datatype Entry = Entry(regular: bool, links: nat, size: nat)

  const OUTPUT_NAME := "geometry.step"
  const MAXIMUM_OUTPUT_BYTES := 33554432

  /** Exactly one entry, of the expected name, a regular file with one link and of admitted size. */
  predicate IsValidOutput(out: map<string, Entry>) {
    && out.Keys == {OUTPUT_NAME}
    && out[OUTPUT_NAME].regular && out[OUTPUT_NAME].links == 1 && 0 < out[OUTPUT_NAME].size <= MAXIMUM_OUTPUT_BYTES
  }

  datatype Control = Marker | StdoutFile | StderrFile

  /** The supervisor's own files, each with the temporary it is written through. */
  datatype Own = Target(file: Control) | Temporary(file: Control)

  datatype Path = Output | OfOwn(own: Own)

  const UNTRUSTED_PATHS: seq<Path> := [
    Output, OfOwn(Target(Marker)), OfOwn(Temporary(Marker)), OfOwn(Target(StdoutFile)), OfOwn(Temporary(StdoutFile)),
    OfOwn(Target(StderrFile)), OfOwn(Temporary(StderrFile))]

  /** The list leaves no path out. */
  lemma EveryPathIsListed()
    ensures forall path: Path :: path in UNTRUSTED_PATHS
  {
    forall path: Path
      ensures path in UNTRUSTED_PATHS
    {
      match path
      case Output => assert UNTRUSTED_PATHS[0] == path;
      case OfOwn(Target(Marker)) => assert UNTRUSTED_PATHS[1] == path;
      case OfOwn(Temporary(Marker)) => assert UNTRUSTED_PATHS[2] == path;
      case OfOwn(Target(StdoutFile)) => assert UNTRUSTED_PATHS[3] == path;
      case OfOwn(Temporary(StdoutFile)) => assert UNTRUSTED_PATHS[4] == path;
      case OfOwn(Target(StderrFile)) => assert UNTRUSTED_PATHS[5] == path;
      case OfOwn(Temporary(StderrFile)) => assert UNTRUSTED_PATHS[6] == path;
    }
  }

  /** A write may fail before or after the file is put in place. */
  datatype WriteEnd = Written | FailedBefore | FailedAfter

  /** Everything that the child and the operating system decide: an unlink in `refused…` fails, `left` is the output
      directory when the child has ended, and `survivors` what a descendant that was not reaped makes of it later. */
  datatype Surroundings = Surroundings(
    sourceOk: bool, subreaperOk: bool, startOk: bool,
    rounds: seq<Round>, firstWait: Option<int>, secondWait: Option<int>, sweeps: seq<Sweep>,
    left: map<string, Entry>, listable: bool, survivors: map<string, Entry>,
    writes: Control -> WriteEnd, temporariesLeft: set<Control>,
    refusedFirst: set<Path>, refusedLast: set<Path>)

  datatype Exit = Emitted(status: Status, exitCode: int, childExitCode: Option<int>) | Crashed | Unfinished

  function ExitCode(status: Status): int {
    match status
    case Done => 0
    case SourceRejected => 66
    case SubreaperUnavailable => 70
    case ChildStartFailed => 70
    case ChildFailed => 70
    case OutputRejected => 74
    case MarkerFailed => 74
    case _ => 75
  }

  class Machine {
    /** The directory that the child owns, and the supervisor's own files. */
    var out: map<string, Entry>
    var control: map<Own, seq<Byte>>

    constructor (out: map<string, Entry>, control: map<Own, seq<Byte>>)
      ensures this.out == out && this.control == control
    {
      this.out, this.control := out, control;
    }

    /** What is left at a path: an entry of the output directory, or a file of the supervisor's own. */
    predicate Present(path: Path)
      reads this
    {
      if path.Output? then OUTPUT_NAME in out else path.own in control
    }

    method Unlink(path: Path, refused: bool)
      modifies this
      ensures refused ==> out == old(out) && control == old(control)
      ensures !refused ==> !Present(path)
      ensures forall p :: p != path ==> Present(p) == old(Present(p))
      ensures out == if refused || !path.Output? then old(out) else old(out) - {OUTPUT_NAME}
      ensures control == if refused || path.Output? then old(control) else old(control) - {path.own}
    {
      if refused { return; }
      if path.Output? {
        out := out - {OUTPUT_NAME};
      } else {
        control := control - {path.own};
      }
    }

    /** The loop over the fixed paths. An unlink that fails is passed over, and the loop goes on. */
    method RemoveUntrustedOutput(refused: set<Path>)
      modifies this
      ensures forall path :: Present(path) <==> old(Present(path)) && path in refused
      ensures forall own :: own in control ==> own in old(control) && control[own] == old(control)[own]
      ensures forall name :: name != OUTPUT_NAME ==>
        (name in out <==> name in old(out)) && (name in out ==> out[name] == old(out)[name])
      ensures refused == {} ==> OUTPUT_NAME !in out && control == map[]
    {
      for i := 0 to |UNTRUSTED_PATHS|
        invariant forall path :: Present(path) <==> old(Present(path)) && (path in refused || path !in UNTRUSTED_PATHS[..i])
        invariant forall own :: own in control ==> own in old(control) && control[own] == old(control)[own]
        invariant forall name :: name != OUTPUT_NAME ==>
          (name in out <==> name in old(out)) && (name in out ==> out[name] == old(out)[name])
      {
        Unlink(UNTRUSTED_PATHS[i], UNTRUSTED_PATHS[i] in refused);
        assert UNTRUSTED_PATHS[..i + 1] == UNTRUSTED_PATHS[..i] + [UNTRUSTED_PATHS[i]];
      }
      assert UNTRUSTED_PATHS[..|UNTRUSTED_PATHS|] == UNTRUSTED_PATHS;
      EveryPathIsListed();
      assert !(Present(Output) && refused == {});
      assert forall own :: own in control ==> Present(OfOwn(own));
    }

    method ValidateOutput(listable: bool) returns (valid: bool)
      ensures valid <==> listable && IsValidOutput(out)
    {
      if !listable || |out| != 1 || OUTPUT_NAME !in out {
        assert out.Keys == {OUTPUT_NAME} ==> |out| == |out.Keys| == 1;
        return false;
      }
      OnlyKey(out.Keys, OUTPUT_NAME);
      var entry := out[OUTPUT_NAME];
      return entry.regular && entry.links == 1 && 0 < entry.size <= MAXIMUM_OUTPUT_BYTES;
    }

    /** The content goes to a temporary file that then takes the place of the target. */
    method WriteAtomic(file: Control, payload: seq<Byte>, end: WriteEnd, temporaryStays: bool) returns (written: bool)
      modifies `control
      ensures written <==> end.Written?
      ensures var others := old(control) - {Temporary(file)};
              control == match end
                         case FailedBefore => if temporaryStays then others[Temporary(file) := payload] else others
                         case _ => others[Target(file) := payload]
    {
      control := control - {Temporary(file)};
      if end.FailedBefore? {
        if temporaryStays { control := control[Temporary(file) := payload]; }
        return false;
      }
      control := control[Target(file) := payload];
      return end.Written?;
    }

    /** Writes the captures and then the marker; a failure stops the sequence. */
    method Publish(stdout: seq<Byte>, stderr: seq<Byte>, marker: seq<Byte>, s: Surroundings) returns (published: bool)
      modifies `control
      ensures published <==> AllWritten(s)
      ensures published ==> Holds(stdout, stderr, marker)
    {
      published := WriteAtomic(StdoutFile, stdout, s.writes(StdoutFile), StdoutFile in s.temporariesLeft);
      if !published { return; }
      published := WriteAtomic(StderrFile, stderr, s.writes(StderrFile), StderrFile in s.temporariesLeft);
      if !published { return; }
      published := WriteAtomic(Marker, marker, s.writes(Marker), Marker in s.temporariesLeft);
      forall file | published
        ensures Temporary(file) !in control
      {
        match file
        case StdoutFile =>
        case StderrFile =>
        case Marker =>
      }
    }

    /** A refusal after the child has run. A descendant that was not reaped may still write its directory. */
    method Refuse(status: Status, code: int, reaped: bool, s: Surroundings) returns (exit: Exit)
      modifies this
      ensures exit == Emitted(status, ExitCode(status), Some(code))
      ensures s.refusedLast == {} ==> control == map[] && (OUTPUT_NAME in out <==> !reaped && OUTPUT_NAME in s.survivors)
    {
      RemoveUntrustedOutput(s.refusedLast);
      if !reaped { out := s.survivors; }
      exit := Emitted(status, ExitCode(status), Some(code));
    }

    /** The child has ended with `code`: reap what it left behind, judge, and publish. */
    method Conclude(s: Surroundings, marker: seq<Byte>, drained: Option<Status>, code: int,
                    stdout: seq<Byte>, stderr: seq<Byte>)
      returns (exit: Exit, reaped: bool)
      requires out == s.left && (drained.Some? ==> drained != Some(Done))
      modifies this
      ensures exit.Emitted? && IsJudged(s, drained, code, exit.status) && HasItsCode(exit) && exit.childExitCode == Some(code)
      ensures reaped <==> SomeSweepEmpties(s.sweeps)
      ensures IsDone(exit) <==> drained.None? && code == 0 && reaped && s.listable && IsValidOutput(s.left) && AllWritten(s)
      ensures IsDone(exit) ==> out == s.left && Holds(stdout, stderr, marker)
      ensures !IsDone(exit) && s.refusedLast == {} ==>
        control == map[] && (OUTPUT_NAME in out <==> !SomeSweepEmpties(s.sweeps) && OUTPUT_NAME in s.survivors)
    {
      var terminal := drained;
      var reaping := TerminateAndReap(s.sweeps);
      reaped := reaping.Closed?;
      if reaping.Unreadable? { terminal := Some(InventoryFailed); }
      if reaping.NotClosed? && terminal.None? { terminal := Some(CleanupFailed); }
      if terminal.Some? {
        exit := Refuse(terminal.value, code, reaped, s);
        return;
      }
      if code != 0 {
        exit := Refuse(ChildFailed, code, reaped, s);
        return;
      }
      var valid := ValidateOutput(s.listable);
      if !valid {
        exit := Refuse(OutputRejected, code, reaped, s);
        return;
      }
      var published := Publish(stdout, stderr, marker, s);
      if !published {
        exit := Refuse(MarkerFailed, code, reaped, s);
        return;
      }
      exit := Emitted(Done, ExitCode(Done), Some(code));
    }

    /** One supervised run. `used` turns of the loop over the pipes were taken. */
    method Supervise(s: Surroundings, marker: seq<Byte>) returns (exit: Exit, ghost used: nat, reaped: bool)
      modifies this
      ensures IsDone(exit) ==> Earned(s, used, reaped, exit) && out == s.left && HoldsStreams(s.rounds[..used], marker)
      ensures exit.Emitted? ==> IsVerdict(s, used, exit) && HasItsCode(exit)
      ensures exit.Unfinished? ==> HasStarted(s) && forall n :: 0 <= n <= |s.rounds| ==> !StopsAfter(s.rounds, n)
      ensures exit.Crashed? ==> HasStarted(s) && (AnyBroken(s.rounds) || (s.firstWait.None? && s.secondWait.None?))
      ensures !IsDone(exit) && s.refusedFirst == {} && s.refusedLast == {} ==> control == map[]
      ensures exit.Emitted? && !IsDone(exit) && s.refusedFirst == {} && s.refusedLast == {} ==>
        (OUTPUT_NAME in out <==> HasStarted(s) && !SomeSweepEmpties(s.sweeps) && OUTPUT_NAME in s.survivors)
      ensures !exit.Emitted? ==> HasStarted(s) && out == s.left
      ensures !HasStarted(s) || EndsInTime(s) ==> exit.Emitted?
      ensures reaped <==> exit.Emitted? && (HasStarted(s) ==> SomeSweepEmpties(s.sweeps))
      ensures Undisturbed(s) ==> IsDone(exit)
    {
      used, reaped := 0, true;
      RemoveUntrustedOutput(s.refusedFirst);
      if !s.sourceOk { return Emitted(SourceRejected, ExitCode(SourceRejected), None), used, reaped; }
      if !s.subreaperOk { return Emitted(SubreaperUnavailable, ExitCode(SubreaperUnavailable), None), used, reaped; }
      if !s.startOk { return Emitted(ChildStartFailed, ExitCode(ChildStartFailed), None), used, reaped; }

      var end, terminal, stdout, stderr;
      end, terminal, stdout, stderr, used := ReadPipes(s.rounds);
      out := s.left;
      if end.StillRunning? { return Unfinished, used, false; }
      if end.Failed? { return Crashed, used, false; }
      var code := if s.firstWait.Some? then s.firstWait else s.secondWait;
      if code.None? { return Crashed, used, false; }
      exit, reaped := Conclude(s, marker, terminal, code.value, stdout, stderr);
    }

    ghost predicate HoldsStreams(rounds: seq<Round>, marker: seq<Byte>)
      reads this
    {
      Holds(Received(Answers(rounds), Stdout), Received(Answers(rounds), Stderr), marker)
    }

    /** The captures and the marker are in place, and no temporary is. */
    ghost predicate Holds(stdout: seq<Byte>, stderr: seq<Byte>, marker: seq<Byte>)
      reads this
    {
      && Target(StdoutFile) in control && control[Target(StdoutFile)] == stdout
      && Target(StderrFile) in control && control[Target(StderrFile)] == stderr
      && Target(Marker) in control && control[Target(Marker)] == marker
      && forall file :: Temporary(file) !in control
    }
  }

  /** Reads both pipes; a terminal status is set exactly when the time ran out or a stream was longer than its limit. */
  method ReadPipes(rounds: seq<Round>)
    returns (end: LoopEnd, terminal: Option<Status>, stdout: seq<Byte>, stderr: seq<Byte>, ghost used: nat)
    ensures used <= |rounds| && (terminal.Some? ==> terminal != Some(Done))
    ensures end.Finished? ==> IsFirstStop(rounds, used) && terminal == Overrun(rounds[..used])
    ensures end.StillRunning? ==> forall m :: 0 <= m <= |rounds| ==> !StopsAfter(rounds, m)
    ensures end.Failed? ==> AnyBroken(rounds)
    ensures end.Finished? && terminal.None? ==>
      && ReadWhole(Answers(rounds[..used]), Stdout) && stdout == Received(Answers(rounds[..used]), Stdout)
      && ReadWhole(Answers(rounds[..used]), Stderr) && stderr == Received(Answers(rounds[..used]), Stderr)
    ensures Quiet(rounds) ==> end.Finished? && terminal.None?
  {
    var reader := new Reader();
    end, used := reader.Drain(rounds);
    terminal := reader.terminal;
    stdout := reader.stdout.Contents();
    stderr := reader.stderr.Contents();
    QuietStops(rounds, used);
  }

  lemma QuietStops(rounds: seq<Round>, used: nat)
    requires used <= |rounds|
    ensures Quiet(rounds) ==> StopsAfter(rounds, |rounds|) && InTime(rounds[..used])
  {
    assert rounds[..|rounds|] == rounds;
    ReceivedGrows(rounds, used, Stdout);
    ReceivedGrows(rounds, used, Stderr);
    ExpiredPrefix(rounds, used);
  }

  /** The time has not run out, and no stream is longer than its limit. */
  predicate InTime(rounds: seq<Round>) {
    && !AnyExpired(rounds) && |Received(Answers(rounds), Stdout)| <= MAXIMUM_LOG_BYTES
    && |Received(Answers(rounds), Stderr)| <= MAXIMUM_LOG_BYTES
  }

  /** The status for which the child is killed: the time counts for more than the length of a stream. */
  function Overrun(rounds: seq<Round>): Option<Status> {
    if AnyExpired(rounds) then Some(WallTimeExceeded)
    else if InTime(rounds) then None
    else Some(LogLimitExceeded)
  }

  /** Both pipes end in time within their limits, and every read succeeds. */
  predicate Quiet(rounds: seq<Round>) {
    InTime(rounds) && !AnyBroken(rounds) && Ended(Answers(rounds), Stdout) && Ended(Answers(rounds), Stderr)
  }

  lemma OnlyKey(keys: set<string>, key: string)
    requires |keys| == 1 && key in keys
    ensures keys == {key}
  {
    var rest := keys - {key};
    assert |rest| == 0;
    assert keys == rest + {key};
  }

  predicate IsDone(exit: Exit) {
    exit.Emitted? && exit.status.Done?
  }

  /** The stream was read to its end, and nothing of it was cut off. */
  predicate ReadWhole(answers: seq<Ready>, stream: Stream) {
    Ended(answers, stream) && |Received(answers, stream)| <= MAXIMUM_LOG_BYTES
  }

  predicate ExitedWith(s: Surroundings, code: int) {
    s.firstWait == Some(code) || (s.firstWait.None? && s.secondWait == Some(code))
  }

  predicate SomeSweepEmpties(sweeps: seq<Sweep>) {
    exists k :: 0 <= k < |sweeps| && Empties(sweeps, k)
  }

  /** The checks before the child pass, and the child is started. */
  predicate HasStarted(s: Surroundings) {
    s.sourceOk && s.subreaperOk && s.startOk
  }

  /** The pipes end within the limits and the time, and a wait for the child succeeds. */
  predicate EndsInTime(s: Surroundings) {
    Quiet(s.rounds) && (s.firstWait.Some? || s.secondWait.Some?)
  }

  predicate AnyFails(sweeps: seq<Sweep>) {
    exists k :: 0 <= k < |sweeps| && FailsAt(sweeps, k)
  }

  /** The status after the child has ended with `code`, when reading its pipes gave `drained`. */
  predicate IsJudged(s: Surroundings, drained: Option<Status>, code: int, status: Status) {
    if AnyFails(s.sweeps) then status == InventoryFailed
    else if drained.Some? then status == drained.value
    else if !SomeSweepEmpties(s.sweeps) then status == CleanupFailed
    else if code != 0 then status == ChildFailed
    else if !s.listable || !IsValidOutput(s.left) then status == OutputRejected
    else if !AllWritten(s) then status == MarkerFailed
    else status == Done
  }

  /** The status of a run that took `used` turns over the pipes, and the exit code of the child that it reports. */
  predicate IsVerdict(s: Surroundings, used: nat, exit: Exit)
    requires exit.Emitted?
  {
    if !s.sourceOk then exit.status == SourceRejected && exit.childExitCode == None
    else if !s.subreaperOk then exit.status == SubreaperUnavailable && exit.childExitCode == None
    else if !s.startOk then exit.status == ChildStartFailed && exit.childExitCode == None
    else
      && IsFirstStop(s.rounds, used) && exit.childExitCode.Some? && ExitedWith(s, exit.childExitCode.value)
      && IsJudged(s, Overrun(s.rounds[..used]), exit.childExitCode.value, exit.status)
  }

  /** The exit code tells the kinds of status apart. */
  predicate HasItsCode(exit: Exit)
    requires exit.Emitted?
  {
    && exit.exitCode in {0, 66, 70, 74, 75}
    && (exit.exitCode == 0 <==> exit.status == Done) && (exit.exitCode == 66 <==> exit.status == SourceRejected)
    && (exit.exitCode == 70 <==> exit.status in {SubreaperUnavailable, ChildStartFailed, ChildFailed})
    && (exit.exitCode == 74 <==> exit.status in {OutputRejected, MarkerFailed})
  }

  /** What an `ok` exit attests. */
  predicate Earned(s: Surroundings, used: nat, reaped: bool, exit: Exit)
    requires exit.Emitted?
  {
    && HasStarted(s) && used <= |s.rounds| && !AnyExpired(s.rounds[..used])
    && ReadWhole(Answers(s.rounds[..used]), Stdout) && ReadWhole(Answers(s.rounds[..used]), Stderr)
    && ExitedWith(s, 0) && exit.childExitCode == Some(0) && exit.exitCode == 0
    && reaped && SomeSweepEmpties(s.sweeps) && IsValidOutput(s.left)
  }

  /** Nothing goes wrong: both pipes end within the limits and the time, and every call succeeds. */
  predicate Undisturbed(s: Surroundings) {
    && HasStarted(s) && Quiet(s.rounds) && ExitedWith(s, 0) && SomeSweepEmpties(s.sweeps)
    && s.listable && IsValidOutput(s.left) && AllWritten(s)
  }

  predicate AllWritten(s: Surroundings) {
    s.writes(StdoutFile).Written? && s.writes(StderrFile).Written? && s.writes(Marker).Written?
  }

  // ------------------------------------------------------- what is left behind

  /** Both pipes end at once and the child exits with 0, but one descendant outlives every sweep and writes an output. */
  function Outlived(): Surroundings {
    Surroundings(
      true, true, true,
      [Round(false, [Ready(Stdout, Chunk([])), Ready(Stderr, Chunk([]))], true)], Some(0), None,
      [Sweep(Some({7}), false, Some({7}))],
      map[], true, map[OUTPUT_NAME := Entry(true, 1, 1)],
      _ => Written, {}, {}, {})
  }

  lemma BothEndAtOnce(first: Ready, second: Ready)
    requires first == Ready(Stdout, Chunk([])) && second == Ready(Stderr, Chunk([]))
    ensures Received([first, second], Stdout) == [] && Received([first, second], Stderr) == []
    ensures Ended([first, second], Stdout) && Ended([first, second], Stderr)
  {
    assert [] + [first] == [first] && [first] + [second] == [first, second];
    ReceivedNext([], first, Stdout);
    ReceivedNext([], first, Stderr);
    ReceivedNext([first], second, Stdout);
    ReceivedNext([first], second, Stderr);
  }

  lemma QuietRound(round: Round)
    requires !round.expired && round.ready == [Ready(Stdout, Chunk([])), Ready(Stderr, Chunk([]))]
    ensures Quiet([round])
  {
    var rounds := [round];
    assert rounds[..0] == [] && Answers(rounds) == [] + round.ready == round.ready;
    BothEndAtOnce(round.ready[0], round.ready[1]);
    assert round.ready == [round.ready[0], round.ready[1]];
    assert !IsExpired(rounds, 0) && !HasBroken(rounds[0].ready);
  }

  lemma OutlivedEndsInTime()
    ensures HasStarted(Outlived()) && EndsInTime(Outlived()) && !SomeSweepEmpties(Outlived().sweeps)
    ensures Outlived().refusedFirst == {} && Outlived().refusedLast == {} && OUTPUT_NAME in Outlived().survivors
  {
    QuietRound(Outlived().rounds[0]);
    assert 7 in Outlived().sweeps[0].after.value;
  }

  /** So a refusal may leave an output although every unlink succeeds: the claim that none does is false of the code. */
  method RefusalLeavesOutput(marker: seq<Byte>) returns (machine: Machine, exit: Exit)
    ensures exit.Emitted? && !IsDone(exit) && machine.control == map[] && OUTPUT_NAME in machine.out
  {
    OutlivedEndsInTime();
    machine := new Machine(map[], map[]);
    ghost var used;
    var reaped;
    exit, used, reaped := machine.Supervise(Outlived(), marker);
  }
}
