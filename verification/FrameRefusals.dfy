/** Why the framing of a bundle is refused, and when it is not, by the bytes at the start. */
module FrameRefusals {
  import opened Text
  import opened Bytes
  import opened GeometryBundle

  /** The words that start a bundle, with their line feed. */
  ghost predicate StartsBundle(raw: seq<Byte>) {
    Codes("CASYS-GEOMETRY-MODULE-BUNDLE/1.0\n") <= raw
  }

  /** After the first 33 bytes the header goes on for `n` bytes to the first line feed. */
  ghost predicate HasHeader(raw: seq<Byte>, n: nat) {
    33 + n < |raw| && raw[33 + n] == 10 && 10 !in raw[33..33 + n]
  }

  function HeaderOf(raw: seq<Byte>, n: nat): seq<Byte>
    requires 33 + n <= |raw|
  {
    raw[33..33 + n]
  }

  /** The text spells a length without a leading zero; digits that are not ASCII are read outside the model. */
  ghost predicate Spells(text: seq<Byte>, length: int, outside: Outside) {
    && text != [] && text[0] != 48
    && if AllDigits(text) then length >= 0 && text == DecimalOf(length) else outside.otherLength(text) == Some(length)
  }

  ghost predicate SpellsNothing(text: seq<Byte>, outside: Outside) {
    forall length :: !Spells(text, length, outside)
  }

  ghost predicate HasLength(raw: seq<Byte>, n: nat, length: int, outside: Outside) {
    n <= 10 && HasHeader(raw, n) && Spells(HeaderOf(raw, n), length, outside)
  }

  ghost predicate IsRefused(raw: seq<Byte>, error: Rejection, outside: Outside) {
    match error
    case BundleTooLarge => |raw| > 268_435_456
    case InvalidMagic => |raw| <= 268_435_456 && !StartsBundle(raw)
    case _ => |raw| <= 268_435_456 && StartsBundle(raw) && IsHeaderFault(raw, error, outside)
  }

  /** What is wrong with the header: its extent, its digits, the length they spell, or too few bytes behind it. */
  ghost predicate IsHeaderFault(raw: seq<Byte>, error: Rejection, outside: Outside) {
    match error
    case InvalidLengthHeader => forall n: nat :: HasHeader(raw, n) ==> n > 10
    case LengthNotCanonical =>
      exists n: nat :: n <= 10 && HasHeader(raw, n) && SpellsNothing(HeaderOf(raw, n), outside)
    case InvalidManifestLength =>
      exists n: nat, length :: HasLength(raw, n, length, outside) && !(1 <= length <= 1_048_576)
    case ManifestTruncated =>
      exists n: nat, length :: HasLength(raw, n, length, outside) && 1 <= length <= 1_048_576 && 34 + n + length > |raw|
    case _ => false
  }

  /** The manifest is as many bytes behind the header as this spells, and the payload is what follows. */
  ghost predicate IsFramedWith(raw: seq<Byte>, n: nat, length: int, frame: Frame, outside: Outside) {
    && HasLength(raw, n, length, outside) && 1 <= length <= 1_048_576 && 34 + n + length <= |raw|
    && frame.manifest == raw[34 + n..34 + n + length] && frame.payload == raw[34 + n + length..]
  }

  lemma MagicText()
    ensures |MAGIC| == 33 && MAGIC == Codes("CASYS-GEOMETRY-MODULE-BUNDLE/1.0\n")
  {
  }

  lemma HeaderEnds(raw: seq<Byte>, n: nat)
    requires |raw| >= 33
    ensures FindByte(raw, NEWLINE, 33) == Some(33 + n) <==> HasHeader(raw, n)
  {
    if HasHeader(raw, n) { GeometryBundle.FindFirst(raw, NEWLINE, 33, 33 + n); }
  }

  lemma LengthIff(text: seq<Byte>, length: int, outside: Outside)
    ensures ManifestLength(text, outside) == Ok(length) <==> Spells(text, length, outside)
  {
    if text != [] && text[0] != 48 && AllDigits(text) {
      ValueDecimal(text);
      if length >= 0 { DecimalValue(length); }
    }
  }

  /** The framing is refused for a reason exactly if the bytes show it. */
  lemma RefusedIff(raw: seq<Byte>, error: Rejection, outside: Outside)
    ensures Unframe(raw, outside) == Err(error) <==> IsRefused(raw, error, outside)
  {
    MagicText();
    if |raw| <= 268_435_456 && MAGIC <= raw {
      HeaderRefusedIff(raw, error, outside);
    }
  }

  lemma NoFeedBefore(raw: seq<Byte>, n: nat, m: nat)
    requires HasHeader(raw, m) && n < m
    ensures raw[33 + n] != 10
  {
    assert raw[33..33 + m][n] == raw[33 + n];
  }

  lemma OneHeader(raw: seq<Byte>, n: nat, m: nat)
    requires HasHeader(raw, n) && HasHeader(raw, m)
    ensures n == m
  {
    if n < m { NoFeedBefore(raw, n, m); }
    else if m < n { NoFeedBefore(raw, m, n); }
  }

  ghost predicate IsOtherFault(raw: seq<Byte>, error: Rejection, outside: Outside) {
    error != BundleTooLarge && error != InvalidMagic && IsHeaderFault(raw, error, outside)
  }

  lemma HeaderRefusedIff(raw: seq<Byte>, error: Rejection, outside: Outside)
    requires |raw| <= 268_435_456 && StartsBundle(raw)
    ensures Unframe(raw, outside) == Err(error) <==> IsOtherFault(raw, error, outside)
  {
    MagicText();
    var end := FindByte(raw, NEWLINE, 33);
    if end.None? {
      forall n: nat
        ensures !HasHeader(raw, n)
      {
        HeaderEnds(raw, n);
      }
    } else {
      HeaderEnds(raw, end.value - 33);
      if end.value - 33 > 10 {
        LongHeader(raw, end.value - 33, error, outside);
      } else {
        ReadLength(HeaderOf(raw, end.value - 33), outside);
        ShortHeader(raw, end.value - 33, error, outside);
      }
    }
  }

  lemma LongHeader(raw: seq<Byte>, n: nat, error: Rejection, outside: Outside)
    requires |raw| <= 268_435_456 && StartsBundle(raw) && HasHeader(raw, n) && n > 10
    ensures Unframe(raw, outside) == Err(error) <==> IsOtherFault(raw, error, outside)
  {
    MagicText();
    HeaderEnds(raw, n);
    forall m: nat | HasHeader(raw, m)
      ensures m == n
    {
      OneHeader(raw, n, m);
    }
  }

  lemma ReadLength(text: seq<Byte>, outside: Outside)
    ensures ManifestLength(text, outside) == Err(LengthNotCanonical) <==> SpellsNothing(text, outside)
    ensures ManifestLength(text, outside).Err? ==> ManifestLength(text, outside) == Err(LengthNotCanonical)
    ensures forall length :: ManifestLength(text, outside) == Ok(length) <==> Spells(text, length, outside)
  {
    forall length
      ensures ManifestLength(text, outside) == Ok(length) <==> Spells(text, length, outside)
    {
      LengthIff(text, length, outside);
    }
    var read := ManifestLength(text, outside);
    if read.Ok? { assert Spells(text, read.value, outside); }
  }

  /** What remains to be said once the header is found. */
  function Behind(raw: seq<Byte>, n: nat, read: Result<int, Rejection>): Option<Rejection> {
    if read.Err? then Some(read.error)
    else if !(1 <= read.value <= 1_048_576) then Some(InvalidManifestLength)
    else if 34 + n + read.value > |raw| then Some(ManifestTruncated)
    else None
  }

  lemma UnframeBehind(raw: seq<Byte>, n: nat, error: Rejection, outside: Outside)
    requires |raw| <= 268_435_456 && StartsBundle(raw) && HasHeader(raw, n) && n <= 10
    ensures Unframe(raw, outside) == Err(error) <==> Behind(raw, n, ManifestLength(HeaderOf(raw, n), outside)) == Some(error)
  {
    MagicText();
    HeaderEnds(raw, n);
  }

  lemma ShortHeader(raw: seq<Byte>, n: nat, error: Rejection, outside: Outside)
    requires |raw| <= 268_435_456 && StartsBundle(raw) && HasHeader(raw, n) && n <= 10
    ensures Unframe(raw, outside) == Err(error) <==> IsOtherFault(raw, error, outside)
  {
    UnframeBehind(raw, n, error, outside);
    ReadLength(HeaderOf(raw, n), outside);
    forall m: nat | HasHeader(raw, m)
      ensures m == n
    {
      OneHeader(raw, n, m);
    }
    var read := ManifestLength(HeaderOf(raw, n), outside);
    if read.Ok? {
      assert HasLength(raw, n, read.value, outside);
    }
  }

  /** What is not refused is a manifest of the spelled length behind the header, and the payload behind that. */
  lemma FramedIff(raw: seq<Byte>, frame: Frame, outside: Outside)
    ensures Unframe(raw, outside) == Ok(frame)
            <==> |raw| <= 268_435_456 && StartsBundle(raw) && exists n: nat, length :: IsFramedWith(raw, n, length, frame, outside)
  {
    MagicText();
    if |raw| <= 268_435_456 && StartsBundle(raw) {
      if Unframe(raw, outside) == Ok(frame) {
        FrameFound(raw, frame, outside);
      }
      if n: nat, length :| IsFramedWith(raw, n, length, frame, outside) {
        FramedOf(raw, n, length, frame, outside);
      }
    }
  }

  lemma FrameFound(raw: seq<Byte>, frame: Frame, outside: Outside)
    requires Unframe(raw, outside) == Ok(frame)
    ensures exists n: nat, length :: IsFramedWith(raw, n, length, frame, outside)
  {
    MagicText();
    var n := FindByte(raw, NEWLINE, 33).value - 33;
    HeaderEnds(raw, n);
    ReadLength(HeaderOf(raw, n), outside);
    assert IsFramedWith(raw, n, ManifestLength(HeaderOf(raw, n), outside).value, frame, outside);
  }

  lemma FramedOf(raw: seq<Byte>, n: nat, length: int, frame: Frame, outside: Outside)
    requires |raw| <= 268_435_456 && StartsBundle(raw) && IsFramedWith(raw, n, length, frame, outside)
    ensures Unframe(raw, outside) == Ok(frame)
  {
    MagicText();
    HeaderEnds(raw, n);
    ReadLength(HeaderOf(raw, n), outside);
  }
}
