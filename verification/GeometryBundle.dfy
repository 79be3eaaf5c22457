/** The geometry-module bundle: a length-framed manifest followed by densely packed STEP files. */
module GeometryBundle {
  import opened Text
  import opened Bytes

  const MAXIMUM_MANIFEST_BYTES := 1_048_576
  const MAXIMUM_OCCURRENCES := 32
  const MAXIMUM_CHILD_STEP_BYTES := 32 * 1_048_576
  const MAXIMUM_BUNDLE_BYTES := 256 * 1_048_576

  datatype Occurrence = Occurrence(usageId: string, byteOffset: int, byteCount: int, sha256: string)

  datatype Frame = Frame(manifest: seq<Byte>, payload: seq<Byte>)

  datatype Bundle = Bundle(occurrences: seq<Occurrence>, steps: seq<seq<Byte>>)

  datatype Rejection =
    | BundleTooLarge | InvalidMagic | InvalidLengthHeader | LengthNotCanonical | InvalidManifestLength | ManifestTruncated
    | InvalidManifest | NoOccurrences | TooManyOccurrences | InvalidStep | NotDense | DuplicateUsage | NotOrdered
    | InexactPayload | StepTruncated | NotPart21 | RehashFailed

  /** What is decided outside the framing: JSON and the flat record checks, digits that are not ASCII,
      the STEP envelope, and the hash. */
  datatype Outside = Outside(
    manifest: seq<Byte> -> Option<seq<Occurrence>>,
    otherLength: seq<Byte> -> Option<int>,
    part21: seq<Byte> -> bool,
    sha256: seq<Byte> -> string)

  // --------------------------------------------------------------- numbers

  predicate AllDigits(s: seq<Byte>) {
    s != [] && forall i :: 0 <= i < |s| ==> IsDigitByte(s[i])
  }

  /** `int(text)` on ASCII digits */
  function ValueOf(s: seq<Byte>): nat
    requires forall i :: 0 <= i < |s| ==> IsDigitByte(s[i])
  {
    if s == [] then 0
    else assert IsDigitByte(s[|s| - 1]); 10 * ValueOf(s[..|s| - 1]) + (s[|s| - 1] as int - 48)
  }

  function DecimalOf(n: nat): (s: seq<Byte>)
    ensures AllDigits(s)
  {
    if n < 10 then [48 + n] else DecimalOf(n / 10) + [48 + n % 10]
  }

  lemma {:induction false} DecimalValue(n: nat)
    ensures ValueOf(DecimalOf(n)) == n
    ensures n > 0 ==> DecimalOf(n)[0] != 48
  {
    var s := DecimalOf(n);
    if n < 10 {
      assert s[..0] == [];
    } else {
      DecimalValue(n / 10);
      assert s[..|s| - 1] == DecimalOf(n / 10);
    }
  }

  lemma {:induction false} ValueDecimal(s: seq<Byte>)
    requires AllDigits(s) && s[0] != 48
    ensures ValueOf(s) > 0 && DecimalOf(ValueOf(s)) == s
  {
    var init, last := s[..|s| - 1], s[|s| - 1] as int - 48;
    if |s| == 1 {
      assert init == [];
    } else {
      ValueDecimal(init);
      var n := ValueOf(s);
      assert n / 10 == ValueOf(init) && n % 10 == last;
      assert s == init + [s[|s| - 1]];
    }
  }

  lemma {:induction false} DecimalLength(n: nat, digits: nat)
    requires digits >= 1 && n < Power10(digits)
    ensures |DecimalOf(n)| <= digits
  {
    if n >= 10 {
      DecimalLength(n / 10, digits - 1);
    }
  }

  // --------------------------------------------------------------- framing

  const MAGIC: seq<Byte> := Codes("CASYS-GEOMETRY-MODULE-BUNDLE/1.0\n")

  const NEWLINE: Byte := 10

  /** `bytes.find(b, from)` for one byte */
  function FindByte(data: seq<Byte>, b: Byte, from: nat): (r: Option<nat>)
    ensures r.Some? ==> from <= r.value < |data| && data[r.value] == b && b !in data[from..r.value]
    ensures r.None? ==> from >= |data| || b !in data[from..]
    decreases |data| - from
  {
    if from >= |data| then None
    else if data[from] == b then Some(from)
    else
      var rest := FindByte(data, b, from + 1);
      assert data[from..] == [data[from]] + data[from + 1..];
      assert rest.Some? ==> data[from..rest.value] == [data[from]] + data[from + 1..rest.value];
      rest
  }

  /** The number in the length header, or why it is refused. */
  function ManifestLength(text: seq<Byte>, outside: Outside): Result<int, Rejection> {
    if text == [] || text[0] == 48 then Err(LengthNotCanonical)
    else if AllDigits(text) then Ok(ValueOf(text))
    else if outside.otherLength(text).Some? then Ok(outside.otherLength(text).value)
    else Err(LengthNotCanonical)
  }

  /** Magic, length header and manifest bounds: the manifest bytes and the payload. */
  function Unframe(raw: seq<Byte>, outside: Outside): Result<Frame, Rejection> {
    if |raw| > MAXIMUM_BUNDLE_BYTES then Err(BundleTooLarge)
    else if !(MAGIC <= raw) then Err(InvalidMagic)
    else
      var lengthEnd := FindByte(raw, NEWLINE, |MAGIC|);
      if lengthEnd.None? || lengthEnd.value - |MAGIC| > 10 then Err(InvalidLengthHeader)
      else
        var length := ManifestLength(raw[|MAGIC|..lengthEnd.value], outside);
        if length.Err? then Err(length.error)
        else if length.value < 1 || length.value > MAXIMUM_MANIFEST_BYTES then Err(InvalidManifestLength)
        else
          var start, end := lengthEnd.value + 1, lengthEnd.value + 1 + length.value;
          if end > |raw| then Err(ManifestTruncated) else Ok(Frame(raw[start..end], raw[end..]))
  }

  /** The bytes a frame is written as. */
  function Framed(frame: Frame): seq<Byte> {
    MAGIC + DecimalOf(|frame.manifest|) + [NEWLINE] + frame.manifest + frame.payload
  }

  /** The length header is written in ASCII digits. */
  predicate AsciiHeader(raw: seq<Byte>) {
    MAGIC <= raw && FindByte(raw, NEWLINE, |MAGIC|).Some?
    && AllDigits(raw[|MAGIC|..FindByte(raw, NEWLINE, |MAGIC|).value])
  }

  lemma FramedParts(frame: Frame)
    ensures var raw, digits := Framed(frame), DecimalOf(|frame.manifest|);
            && MAGIC <= raw
            && FindByte(raw, NEWLINE, |MAGIC|) == Some(|MAGIC| + |digits|)
            && raw[|MAGIC|..|MAGIC| + |digits|] == digits
            && raw[|MAGIC| + |digits| + 1..] == frame.manifest + frame.payload
  {
    var raw, digits := Framed(frame), DecimalOf(|frame.manifest|);
    var at := |MAGIC| + |digits|;
    assert raw == MAGIC + digits + [NEWLINE] + (frame.manifest + frame.payload);
    assert raw[|MAGIC|..at] == digits;
    assert raw[at] == NEWLINE;
    FindFirst(raw, NEWLINE, |MAGIC|, at);
  }

  lemma {:induction false} FindFirst(data: seq<Byte>, b: Byte, from: nat, at: nat)
    requires from <= at < |data| && data[at] == b && b !in data[from..at]
    ensures FindByte(data, b, from) == Some(at)
    decreases at - from
  {
    if from < at {
      assert data[from] == data[from..at][0] && data[from + 1..at] == data[from..at][1..];
      FindFirst(data, b, from + 1, at);
    }
  }

  /** Writing a frame and reading it gives the same parts. */
  lemma UnframeFramed(frame: Frame, outside: Outside)
    requires 1 <= |frame.manifest| <= MAXIMUM_MANIFEST_BYTES && |Framed(frame)| <= MAXIMUM_BUNDLE_BYTES
    ensures Unframe(Framed(frame), outside) == Ok(frame)
  {
    var raw, digits := Framed(frame), DecimalOf(|frame.manifest|);
    FramedParts(frame);
    DecimalValue(|frame.manifest|);
    assert Power10(7) == 10_000_000;
    DecimalLength(|frame.manifest|, 7);
    var start := |MAGIC| + |digits| + 1;
    assert raw[start..start + |frame.manifest|] == raw[start..][..|frame.manifest|] == frame.manifest;
    assert raw[start + |frame.manifest|..] == raw[start..][|frame.manifest|..] == frame.payload;
  }

  /** A readable input is the writing of its parts exactly when its length header is ASCII. */
  lemma ReadableIsFramed(raw: seq<Byte>, outside: Outside)
    requires Unframe(raw, outside).Ok?
    ensures raw == Framed(Unframe(raw, outside).value) <==> AsciiHeader(raw)
  {
    if AsciiHeader(raw) {
      AsciiIsFramed(raw, outside);
    }
    if raw == Framed(Unframe(raw, outside).value) {
      FramedParts(Unframe(raw, outside).value);
    }
  }

  lemma AsciiIsFramed(raw: seq<Byte>, outside: Outside)
    requires Unframe(raw, outside).Ok? && AsciiHeader(raw)
    ensures raw == Framed(Unframe(raw, outside).value)
  {
    var at := FindByte(raw, NEWLINE, |MAGIC|).value;
    ValueDecimal(raw[|MAGIC|..at]);
    PiecesAreFramed(raw, at, ValueOf(raw[|MAGIC|..at]));
  }

  lemma PiecesAreFramed(raw: seq<Byte>, at: nat, length: nat)
    requires MAGIC <= raw && |MAGIC| <= at < |raw| && at + 1 + length <= |raw|
    requires raw[|MAGIC|..at] == DecimalOf(length) && raw[at] == NEWLINE
    ensures raw == Framed(Frame(raw[at + 1..at + 1 + length], raw[at + 1 + length..]))
  {
    InFiveParts(raw, |MAGIC|, at, at + 1 + length);
  }

  lemma InFiveParts(raw: seq<Byte>, a: nat, b: nat, c: nat)
    requires a <= b < c <= |raw|
    ensures raw == raw[..a] + raw[a..b] + [raw[b]] + raw[b + 1..c] + raw[c..]
  {
  }

  // ---------------------------------------------------------- dense packing

  function Total(occurrences: seq<Occurrence>): int {
    if occurrences == [] then 0
    else Total(occurrences[..|occurrences| - 1]) + occurrences[|occurrences| - 1].byteCount
  }

  function UsageIds(occurrences: seq<Occurrence>): (ids: seq<string>)
    ensures |ids| == |occurrences|
  {
    seq(|occurrences|, i requires 0 <= i < |occurrences| => occurrences[i].usageId)
  }

  predicate StepFits(occurrence: Occurrence) {
    1 <= occurrence.byteCount <= MAXIMUM_CHILD_STEP_BYTES && occurrence.byteOffset >= 0
  }

  /** Each STEP file starts where the previous ones end. */
  ghost predicate Packed(occurrences: seq<Occurrence>) {
    forall i :: 0 <= i < |occurrences| ==> PackedAt(occurrences, i)
  }

  ghost predicate PackedAt(occurrences: seq<Occurrence>, i: nat)
    requires i < |occurrences|
  {
    StepFits(occurrences[i]) && occurrences[i].byteOffset == Total(occurrences[..i])
  }

  ghost predicate ValidOccurrences(occurrences: seq<Occurrence>) {
    1 <= |occurrences| <= MAXIMUM_OCCURRENCES && Packed(occurrences) && StrictlySorted(UsageIds(occurrences))
  }

  /** Occurrence `i` is the first that is not where the previous ones end, with a size it may have. */
  ghost predicate IsFirstUnpacked(occurrences: seq<Occurrence>, i: nat) {
    i < |occurrences| && !PackedAt(occurrences, i) && forall k :: 0 <= k < i ==> PackedAt(occurrences, k)
  }

  ghost predicate SharesUsage(occurrences: seq<Occurrence>, i: nat, j: nat) {
    i < j < |occurrences| && occurrences[i].usageId == occurrences[j].usageId
  }

  ghost predicate NoneShared(occurrences: seq<Occurrence>) {
    forall i, j :: 0 <= i < j < |occurrences| ==> !SharesUsage(occurrences, i, j)
  }

  /** What is wrong with a manifest, the first fault in the order of the checks. */
  ghost predicate IsManifestFault(occurrences: seq<Occurrence>, error: Rejection) {
    match error
    case NoOccurrences => occurrences == []
    case TooManyOccurrences => |occurrences| > 32
    case InvalidStep =>
      1 <= |occurrences| <= 32 && exists i: nat :: IsFirstUnpacked(occurrences, i) && !StepFits(occurrences[i])
    case NotDense =>
      1 <= |occurrences| <= 32 && exists i: nat :: IsFirstUnpacked(occurrences, i) && StepFits(occurrences[i])
    case DuplicateUsage =>
      1 <= |occurrences| <= 32 && Packed(occurrences) && !NoneShared(occurrences)
    case NotOrdered =>
      && 1 <= |occurrences| <= 32 && Packed(occurrences) && NoneShared(occurrences)
      && !StrictlySorted(UsageIds(occurrences))
    case _ => false
  }

  lemma RepeatedUsage(occurrences: seq<Occurrence>)
    ensures NoneShared(occurrences) <==> |Elements(UsageIds(occurrences))| == |UsageIds(occurrences)|
  {
    var ids := UsageIds(occurrences);
    DistinctIffCounted(ids);
    if !NoneShared(occurrences) {
      var i, j :| 0 <= i < j < |occurrences| && SharesUsage(occurrences, i, j);
      assert ids[i] == ids[j];
    }
    if i, j :| 0 <= i < j < |ids| && ids[i] == ids[j] {
      assert SharesUsage(occurrences, i, j);
    }
  }

  method ValidateManifest(occurrences: seq<Occurrence>) returns (r: Result<(), Rejection>)
    ensures r.Ok? <==> ValidOccurrences(occurrences)
    ensures r.Err? ==> IsManifestFault(occurrences, r.error)
  {
    if occurrences == [] {
      return Err(NoOccurrences);
    }
    if |occurrences| > MAXIMUM_OCCURRENCES {
      return Err(TooManyOccurrences);
    }
    var expected := 0;
    for i := 0 to |occurrences|
      invariant expected == Total(occurrences[..i])
      invariant forall k :: 0 <= k < i ==> PackedAt(occurrences, k)
    {
      if !StepFits(occurrences[i]) {
        assert IsFirstUnpacked(occurrences, i);
        return Err(InvalidStep);
      }
      if occurrences[i].byteOffset != expected {
        assert IsFirstUnpacked(occurrences, i);
        return Err(NotDense);
      }
      assert occurrences[..i + 1][..i] == occurrences[..i];
      expected := expected + occurrences[i].byteCount;
    }
    var ids := UsageIds(occurrences);
    RepeatedUsage(occurrences);
    if |Elements(ids)| != |ids| {
      SortedHasNoRepeats(ids);
      return Err(DuplicateUsage);
    }
    if ids != Ascending(Elements(ids)) {
      if StrictlySorted(ids) {
        SortedIsUnique(ids, Ascending(Elements(ids)));
      }
      return Err(NotOrdered);
    }
    r := Ok(());
  }

  lemma {:induction false} SortedHasNoRepeats(s: seq<string>)
    ensures StrictlySorted(s) ==> |Elements(s)| == |s|
  {
    if StrictlySorted(s) && s != [] {
      TailElements(s);
      SortedHasNoRepeats(s[1..]);
    }
  }

  lemma {:induction false} TotalGrows(occurrences: seq<Occurrence>, i: nat, j: nat)
    requires Packed(occurrences) && i <= j <= |occurrences|
    ensures 0 <= Total(occurrences[..i]) <= Total(occurrences[..j])
    ensures i < j ==> Total(occurrences[..i]) + occurrences[i].byteCount <= Total(occurrences[..j])
    decreases j
  {
    if j > 0 {
      assert occurrences[..j][..j - 1] == occurrences[..j - 1];
      assert PackedAt(occurrences, j - 1);
      if i < j {
        TotalGrows(occurrences, i, j - 1);
      } else {
        TotalGrows(occurrences, j - 1, j - 1);
      }
    }
  }

  // --------------------------------------------------------------- slicing

  /** The bytes an occurrence names. */
  function Slice(occurrence: Occurrence, payload: seq<Byte>): seq<Byte>
    requires 0 <= occurrence.byteOffset && 0 <= occurrence.byteCount
    requires occurrence.byteOffset + occurrence.byteCount <= |payload|
  {
    payload[occurrence.byteOffset..occurrence.byteOffset + occurrence.byteCount]
  }

  function Concat(parts: seq<seq<Byte>>): seq<Byte> {
    if parts == [] then [] else Concat(parts[..|parts| - 1]) + parts[|parts| - 1]
  }

  /** `steps` are the files the occurrences describe. */
  ghost predicate StepsMatch(occurrences: seq<Occurrence>, steps: seq<seq<Byte>>, outside: Outside) {
    |steps| == |occurrences| && forall i :: 0 <= i < |steps| ==> StepMatches(occurrences[i], steps[i], outside)
  }

  ghost predicate StepMatches(occurrence: Occurrence, step: seq<Byte>, outside: Outside) {
    |step| == occurrence.byteCount && outside.part21(step) && outside.sha256(step) == occurrence.sha256
  }

  /** Packed slices lie inside the payload, do not overlap, and leave no gap. */
  lemma SlicesTile(occurrences: seq<Occurrence>, payload: seq<Byte>, i: nat)
    requires Packed(occurrences) && |payload| == Total(occurrences) && i < |occurrences|
    ensures 0 <= occurrences[i].byteOffset < occurrences[i].byteOffset + occurrences[i].byteCount <= |payload|
    ensures i == 0 ==> occurrences[i].byteOffset == 0
    ensures i + 1 < |occurrences| ==> occurrences[i].byteOffset + occurrences[i].byteCount == occurrences[i + 1].byteOffset
    ensures i + 1 == |occurrences| ==> occurrences[i].byteOffset + occurrences[i].byteCount == |payload|
  {
    assert PackedAt(occurrences, i);
    assert occurrences[..|occurrences|] == occurrences;
    TotalGrows(occurrences, i, |occurrences|);
    assert occurrences[..i + 1][..i] == occurrences[..i];
    if i + 1 < |occurrences| {
      assert PackedAt(occurrences, i + 1);
    }
  }

  /** The steps of packed occurrences concatenate to the payload exactly when each is its slice of it. */
  lemma {:induction false} ConcatIffSlices(occurrences: seq<Occurrence>, steps: seq<seq<Byte>>, payload: seq<Byte>, count: nat)
    requires Packed(occurrences) && |steps| == |occurrences| && count <= |steps|
    requires forall i :: 0 <= i < |steps| ==> |steps[i]| == occurrences[i].byteCount
    requires Total(occurrences[..count]) <= |payload|
    ensures |Concat(steps[..count])| == Total(occurrences[..count])
    ensures Concat(steps[..count]) == payload[..Total(occurrences[..count])] <==>
              forall i :: 0 <= i < count ==> IsSlice(occurrences[i], steps[i], payload)
  {
    if count > 0 {
      var last := count - 1;
      assert PackedAt(occurrences, last);
      TotalGrows(occurrences, last, count);
      assert occurrences[..count][..last] == occurrences[..last] && steps[..count][..last] == steps[..last];
      ConcatIffSlices(occurrences, steps, payload, last);
      var at, end := Total(occurrences[..last]), Total(occurrences[..count]);
      assert payload[..end] == payload[..at] + payload[at..end];
      var whole := Concat(steps[..last]) + steps[last];
      assert whole[..at] == Concat(steps[..last]) && whole[at..] == steps[last];
      assert payload[..end][..at] == payload[..at] && payload[..end][at..] == payload[at..end];
    }
  }

  ghost predicate IsSlice(occurrence: Occurrence, step: seq<Byte>, payload: seq<Byte>) {
    && 0 <= occurrence.byteOffset && 0 <= occurrence.byteCount
    && occurrence.byteOffset + occurrence.byteCount <= |payload|
    && step == Slice(occurrence, payload)
  }

  /** `payload[start:end]`: bounds past the end are moved to the end. */
  function Clamped(payload: seq<Byte>, start: int, end: int): seq<Byte>
    requires 0 <= start <= end
  {
    if end <= |payload| then payload[start..end] else if start <= |payload| then payload[start..] else []
  }

  /** Slicing clamps, hence the length check; it never fails here. */
  method SliceSteps(occurrences: seq<Occurrence>, payload: seq<Byte>, outside: Outside) returns (r: Result<seq<seq<Byte>>, Rejection>)
    requires Packed(occurrences)
    ensures r.Ok? ==> StepsMatch(occurrences, r.value, outside) && Concat(r.value) == payload
    ensures r.Err? ==> !exists steps :: StepsMatch(occurrences, steps, outside) && Concat(steps) == payload
    ensures r.Err? ==> IsStepFault(occurrences, payload, r.error, outside)
  {
    assert occurrences[..|occurrences|] == occurrences;
    if |payload| != Total(occurrences) {
      NoOtherPayload(occurrences, payload, outside);
      return Err(InexactPayload);
    }
    var steps: seq<seq<Byte>> := [];
    for i := 0 to |occurrences|
      invariant |steps| == i
      invariant forall k :: 0 <= k < i ==> StepMatches(occurrences[k], steps[k], outside) && IsSlice(occurrences[k], steps[k], payload)
    {
      SlicesTile(occurrences, payload, i);
      var start := occurrences[i].byteOffset;
      var end := start + occurrences[i].byteCount;
      var step := Clamped(payload, start, end);
      assert step == Slice(occurrences[i], payload);
      SlicesBefore(occurrences, payload, steps, i, step, outside);
      if |step| != occurrences[i].byteCount {
        return Err(StepTruncated);
      }
      if !outside.part21(step) {
        OnlyTheSlices(occurrences, payload, outside, i);
        return Err(NotPart21);
      }
      if outside.sha256(step) != occurrences[i].sha256 {
        OnlyTheSlices(occurrences, payload, outside, i);
        return Err(RehashFailed);
      }
      steps := steps + [step];
    }
    ConcatIffSlices(occurrences, steps, payload, |steps|);
    assert steps[..|steps|] == steps && payload[..|payload|] == payload;
    r := Ok(steps);
  }

  ghost predicate HasFile(occurrence: Occurrence, payload: seq<Byte>, outside: Outside) {
    exists step :: IsSlice(occurrence, step, payload) && StepMatches(occurrence, step, outside)
  }

  /** The slices before `i` are the files their occurrences describe. */
  ghost predicate MatchBefore(occurrences: seq<Occurrence>, payload: seq<Byte>, i: nat, outside: Outside) {
    forall k :: 0 <= k < i < |occurrences| ==> HasFile(occurrences[k], payload, outside)
  }

  /** What is wrong with the files: their length in all, or the first slice that is not what its occurrence describes. */
  ghost predicate IsStepFault(occurrences: seq<Occurrence>, payload: seq<Byte>, error: Rejection, outside: Outside) {
    match error
    case InexactPayload => |payload| != Total(occurrences)
    case NotPart21 =>
      && |payload| == Total(occurrences)
      && exists i: nat, step :: IsFirstSlice(occurrences, payload, i, step, outside) && !outside.part21(step)
    case RehashFailed =>
      && |payload| == Total(occurrences)
      && exists i: nat, step :: IsFirstSlice(occurrences, payload, i, step, outside)
                                && outside.part21(step) && outside.sha256(step) != occurrences[i].sha256
    case _ => false
  }

  ghost predicate IsFirstSlice(occurrences: seq<Occurrence>, payload: seq<Byte>, i: nat, step: seq<Byte>, outside: Outside) {
    i < |occurrences| && IsSlice(occurrences[i], step, payload) && MatchBefore(occurrences, payload, i, outside)
  }

  lemma SlicesBefore(occurrences: seq<Occurrence>, payload: seq<Byte>, steps: seq<seq<Byte>>, i: nat, step: seq<Byte>,
                     outside: Outside)
    requires |steps| == i < |occurrences| && IsSlice(occurrences[i], step, payload)
    requires forall k :: 0 <= k < i ==> StepMatches(occurrences[k], steps[k], outside) && IsSlice(occurrences[k], steps[k], payload)
    ensures IsFirstSlice(occurrences, payload, i, step, outside)
  {
    forall k | 0 <= k < i
      ensures HasFile(occurrences[k], payload, outside)
    {
      assert StepMatches(occurrences[k], steps[k], outside) && IsSlice(occurrences[k], steps[k], payload);
    }
  }

  lemma NoOtherPayload(occurrences: seq<Occurrence>, payload: seq<Byte>, outside: Outside)
    requires Packed(occurrences) && |payload| != Total(occurrences)
    ensures forall steps :: StepsMatch(occurrences, steps, outside) ==> Concat(steps) != payload
  {
    forall steps | StepsMatch(occurrences, steps, outside)
      ensures Concat(steps) != payload
    {
      ConcatLength(occurrences, steps, outside);
    }
  }

  lemma ConcatLength(occurrences: seq<Occurrence>, steps: seq<seq<Byte>>, outside: Outside)
    requires Packed(occurrences) && StepsMatch(occurrences, steps, outside)
    ensures |Concat(steps)| == Total(occurrences)
  {
    forall i | 0 <= i < |steps|
      ensures |steps[i]| == occurrences[i].byteCount
    {
      assert StepMatches(occurrences[i], steps[i], outside);
    }
    TotalGrows(occurrences, 0, |occurrences|);
    assert occurrences[..|occurrences|] == occurrences && steps[..|steps|] == steps;
    ConcatIffSlices(occurrences, steps, seq(Total(occurrences), _ => 0), |steps|);
  }

  lemma OnlyTheSlices(occurrences: seq<Occurrence>, payload: seq<Byte>, outside: Outside, i: nat)
    requires Packed(occurrences) && |payload| == Total(occurrences) && i < |occurrences|
    requires 0 <= occurrences[i].byteOffset <= occurrences[i].byteOffset + occurrences[i].byteCount <= |payload|
    requires !StepMatches(occurrences[i], Slice(occurrences[i], payload), outside)
    ensures forall steps :: StepsMatch(occurrences, steps, outside) ==> Concat(steps) != payload
  {
    forall steps | StepsMatch(occurrences, steps, outside)
      ensures Concat(steps) != payload
    {
      forall k | 0 <= k < |steps|
        ensures |steps[k]| == occurrences[k].byteCount
      {
        assert StepMatches(occurrences[k], steps[k], outside);
      }
      assert occurrences[..|occurrences|] == occurrences && steps[..|steps|] == steps;
      ConcatIffSlices(occurrences, steps, payload, |steps|);
      assert StepMatches(occurrences[i], steps[i], outside);
      assert !IsSlice(occurrences[i], steps[i], payload);
    }
  }

  // ---------------------------------------------------------------- bundles

  /** `bundle` is what an input with these frame parts contains. */
  ghost predicate Holds(frame: Frame, bundle: Bundle, outside: Outside) {
    && outside.manifest(frame.manifest) == Some(bundle.occurrences)
    && ValidOccurrences(bundle.occurrences)
    && StepsMatch(bundle.occurrences, bundle.steps, outside)
    && Concat(bundle.steps) == frame.payload
  }

  /** What is wrong with the contents of a frame: no manifest, a fault of it, or one of the files. */
  ghost predicate IsContentFault(frame: Frame, error: Rejection, outside: Outside) {
    var occurrences := outside.manifest(frame.manifest);
    if occurrences.None? then error == InvalidManifest
    else if !ValidOccurrences(occurrences.value) then IsManifestFault(occurrences.value, error)
    else IsStepFault(occurrences.value, frame.payload, error, outside)
  }

  method ParseBundle(raw: seq<Byte>, outside: Outside) returns (r: Result<Bundle, Rejection>)
    ensures r.Ok? ==> Unframe(raw, outside).Ok? && Holds(Unframe(raw, outside).value, r.value, outside)
    ensures r.Err? ==> r.error != StepTruncated
    ensures r.Err? && Unframe(raw, outside).Ok? ==>
              forall bundle :: !Holds(Unframe(raw, outside).value, bundle, outside)
    ensures r.Err? ==> if Unframe(raw, outside).Err? then r.error == Unframe(raw, outside).error
                       else IsContentFault(Unframe(raw, outside).value, r.error, outside)
  {
    var frame := Unframe(raw, outside);
    if frame.Err? {
      UnframeNeverTruncatesStep(raw, outside);
      return Err(frame.error);
    }
    var occurrences := outside.manifest(frame.value.manifest);
    if occurrences.None? {
      return Err(InvalidManifest);
    }
    var valid := ValidateManifest(occurrences.value);
    if valid.Err? {
      return Err(valid.error);
    }
    var steps := SliceSteps(occurrences.value, frame.value.payload, outside);
    if steps.Err? {
      return Err(steps.error);
    }
    r := Ok(Bundle(occurrences.value, steps.value));
  }

  lemma UnframeNeverTruncatesStep(raw: seq<Byte>, outside: Outside)
    ensures Unframe(raw, outside) != Err(StepTruncated)
  {
  }

  /** The canonical bytes of a bundle with the given manifest text. */
  function Encode(manifest: seq<Byte>, steps: seq<seq<Byte>>): seq<Byte> {
    Framed(Frame(manifest, Concat(steps)))
  }

  /** `raw` is the encoding of the bundle with some manifest text of a permitted length. */
  ghost predicate IsEncoding(raw: seq<Byte>, bundle: Bundle, outside: Outside) {
    exists manifest :: EncodesWith(raw, manifest, bundle, outside)
  }

  ghost predicate EncodesWith(raw: seq<Byte>, manifest: seq<Byte>, bundle: Bundle, outside: Outside) {
    && 1 <= |manifest| <= MAXIMUM_MANIFEST_BYTES
    && raw == Encode(manifest, bundle.steps)
    && Holds(Frame(manifest, Concat(bundle.steps)), bundle, outside)
  }

  ghost predicate Accepted(raw: seq<Byte>, bundle: Bundle, outside: Outside) {
    Unframe(raw, outside).Ok? && Holds(Unframe(raw, outside).value, bundle, outside)
  }

  /** Encoding a bundle and decoding it gives the bundle back. */
  lemma EncodedIsAccepted(raw: seq<Byte>, manifest: seq<Byte>, bundle: Bundle, outside: Outside)
    requires |raw| <= MAXIMUM_BUNDLE_BYTES && EncodesWith(raw, manifest, bundle, outside)
    ensures AsciiHeader(raw) && Accepted(raw, bundle, outside)
  {
    UnframeFramed(Frame(manifest, Concat(bundle.steps)), outside);
    ReadableIsFramed(raw, outside);
  }

  lemma ManifestBounds(raw: seq<Byte>, outside: Outside)
    requires Unframe(raw, outside).Ok?
    ensures 1 <= |Unframe(raw, outside).value.manifest| <= MAXIMUM_MANIFEST_BYTES
  {
  }

  /** An input with an ASCII length header is accepted as a bundle exactly when it is an encoding of that bundle. */
  lemma AcceptedIffEncoded(raw: seq<Byte>, bundle: Bundle, outside: Outside)
    requires |raw| <= MAXIMUM_BUNDLE_BYTES
    ensures AsciiHeader(raw) && Accepted(raw, bundle, outside) <==> IsEncoding(raw, bundle, outside)
  {
    if AsciiHeader(raw) && Accepted(raw, bundle, outside) {
      var frame := Unframe(raw, outside).value;
      ReadableIsFramed(raw, outside);
      ManifestBounds(raw, outside);
      assert EncodesWith(raw, frame.manifest, bundle, outside);
    }
    if IsEncoding(raw, bundle, outside) {
      var manifest :| EncodesWith(raw, manifest, bundle, outside);
      EncodedIsAccepted(raw, manifest, bundle, outside);
    }
  }

  /** An input holds at most one bundle. */
  lemma ContentsAreUnique(frame: Frame, a: Bundle, b: Bundle, outside: Outside)
    requires Holds(frame, a, outside) && Holds(frame, b, outside)
    ensures a == b
  {
    var occurrences := a.occurrences;
    assert occurrences[..|occurrences|] == occurrences;
    ConcatLength(occurrences, a.steps, outside);
    SlicesOf(frame, a, outside);
    SlicesOf(frame, b, outside);
    assert a.steps == b.steps;
  }

  lemma SlicesOf(frame: Frame, bundle: Bundle, outside: Outside)
    requires Holds(frame, bundle, outside)
    ensures forall i :: 0 <= i < |bundle.steps| ==> IsSlice(bundle.occurrences[i], bundle.steps[i], frame.payload)
  {
    var occurrences, steps := bundle.occurrences, bundle.steps;
    forall k | 0 <= k < |steps|
      ensures |steps[k]| == occurrences[k].byteCount
    {
      assert StepMatches(occurrences[k], steps[k], outside);
    }
    ConcatLength(occurrences, steps, outside);
    assert occurrences[..|occurrences|] == occurrences && steps[..|steps|] == steps;
    ConcatIffSlices(occurrences, steps, frame.payload, |steps|);
  }
}
