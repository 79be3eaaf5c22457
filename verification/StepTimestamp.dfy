/** Rewriting the STEP FILE_NAME timestamp in place. */
module StepTimestamp {
  import opened Text
  import opened Bytes
  import opened StampLocation

  datatype NormalizeError = NotLocated(reason: LocateError) | LengthChanged | OutsideChanged | RereadDiffers

  // ------------------------------------------------------------ rewriting

  function CanonicalBytes(): (c: seq<Byte>)
    ensures |c| == 19 && StampAt(c, 0)
  {
    [49, 57, 55, 48, 45, 48, 49, 45, 48, 49, 84, 48, 48, 58, 48, 48, 58, 48, 48]
  }

  lemma CanonicalText()
    ensures LiteralAt(CanonicalBytes(), 0, "1970-01-01T00:00:00")
  {
  }

  lemma CanonicalIsCodes()
    ensures CanonicalBytes() == Codes("1970-01-01T00:00:00")
  {
    var text := "1970-01-01T00:00:00";
    forall i | 0 <= i < 19
      ensures CanonicalBytes()[i] == text[i] as int
    {
    }
  }

  /** The file with the canonical timestamp at the offset. */
  function Stamped(data: seq<Byte>, offset: nat): (r: seq<Byte>)
    requires offset + 19 <= |data|
    ensures |r| == |data|
  {
    data[..offset] + CanonicalBytes() + data[offset + 19..]
  }

  /** What normalizing makes of an accepted file. */
  function Normal(data: seq<Byte>): seq<Byte>
    requires Locate(data).Ok?
  {
    LocatedIsStamp(data);
    Stamped(data, Locate(data).value)
  }

  /** The epoch at the offset, and the other bytes as before. */
  predicate IsStampedAt(data: seq<Byte>, result: seq<Byte>, offset: nat) {
    && offset + 19 <= |data| == |result| && result[..offset] == data[..offset]
    && result[offset..offset + 19] == Codes("1970-01-01T00:00:00") && result[offset + 19..] == data[offset + 19..]
  }

  ghost predicate IsRewritten(data: seq<Byte>, result: seq<Byte>) {
    forall offset: nat :: FieldLiesAt(data, offset) ==> IsStampedAt(data, result, offset)
  }

  lemma NormalIsRewritten(data: seq<Byte>)
    requires Locate(data).Ok?
    ensures IsRewritten(data, Normal(data))
  {
    forall offset: nat | FieldLiesAt(data, offset)
      ensures IsStampedAt(data, Normal(data), offset)
    {
      LocateIff(data, offset);
      StampedInPlace(data, offset);
    }
  }

  lemma StampedInPlace(data: seq<Byte>, offset: nat)
    requires Locate(data) == Ok(offset)
    ensures IsStampedAt(data, Normal(data), offset)
  {
    LocatedIsStamp(data);
    StampedParts(data, offset);
    CanonicalIsCodes();
  }

  lemma LocatedWhereItLies(data: seq<Byte>)
    ensures Locate(data).Ok? <==> exists offset: nat :: FieldLiesAt(data, offset)
  {
    forall offset: nat
      ensures Locate(data) == Ok(offset) <==> FieldLiesAt(data, offset)
    {
      LocateIff(data, offset);
    }
    if Locate(data).Ok? {
      assert FieldLiesAt(data, Locate(data).value);
    }
  }

  method Normalize(file: array<Byte>) returns (r: Result<(), NormalizeError>)
    modifies file
    ensures r.Ok? <==> exists offset: nat :: FieldLiesAt(old(file[..]), offset)
    ensures r.Ok? ==> IsRewritten(old(file[..]), file[..])
    ensures r.Err? ==> r.error.NotLocated? && IsFault(old(file[..]), r.error.reason)
    ensures r.Ok? <==> Locate(old(file[..])).Ok?
    ensures r.Ok? ==> file[..] == Normal(old(file[..]))
    ensures r.Err? ==> file[..] == old(file[..]) && r.error == NotLocated(Locate(old(file[..])).error)
  {
    var original := file[..];
    var located := Locate(original);
    LocatedWhereItLies(original);
    if located.Err? {
      LocateFault(original);
      return Err(NotLocated(located.error));
    }
    var offset := located.value;
    LocatedIsStamp(original);
    Overwrite(file, offset, CanonicalBytes());
    var rewritten := file[..];
    StampedParts(original, offset);
    NormalizeIsStable(original);
    if |rewritten| != |original| {
      return Err(LengthChanged);
    }
    if rewritten[..offset] != original[..offset] || rewritten[offset + 19..] != original[offset + 19..] {
      return Err(OutsideChanged);
    }
    var reread := Locate(rewritten);
    if reread != Ok(offset) || rewritten[offset..offset + 19] != CanonicalBytes() {
      return Err(RereadDiffers);
    }
    NormalIsRewritten(original);
    r := Ok(());
  }

  /** `seek` and `write` on the open file. */
  method Overwrite(file: array<Byte>, offset: nat, bytes: seq<Byte>)
    requires offset + |bytes| <= file.Length
    modifies file
    ensures file[..] == old(file[..offset]) + bytes + old(file[offset + |bytes|..])
  {
    ghost var original := file[..];
    for i := 0 to |bytes|
      invariant file[..] == original[..offset] + bytes[..i] + original[offset + i..]
    {
      file[offset + i] := bytes[i];
    }
    assert bytes[..|bytes|] == bytes;
  }

  lemma StampedParts(data: seq<Byte>, offset: nat)
    requires offset + 19 <= |data|
    ensures Stamped(data, offset)[..offset] == data[..offset]
    ensures Stamped(data, offset)[offset..offset + 19] == CanonicalBytes()
    ensures Stamped(data, offset)[offset + 19..] == data[offset + 19..]
  {
  }

  // ----------------------------------------- nothing looks at digit values

  /** Equal bytes, except that one digit may stand for another. */
  predicate SameShapeAt(a: seq<Byte>, b: seq<Byte>, i: nat)
    requires i < |a| && i < |b|
  {
    a[i] == b[i] || (IsDigitByte(a[i]) && IsDigitByte(b[i]))
  }

  predicate SameShape(a: seq<Byte>, b: seq<Byte>) {
    |a| == |b| && forall i :: 0 <= i < |a| ==> SameShapeAt(a, b, i)
  }

  lemma LiteralShape(a: seq<Byte>, b: seq<Byte>, p: nat, literal: string)
    requires SameShape(a, b) && IsLiteral(literal)
    ensures LiteralAt(a, p, literal) <==> LiteralAt(b, p, literal)
  {
    forall i | 0 <= i < |literal| && p + |literal| <= |a|
      ensures a[p + i] == literal[i] as int <==> b[p + i] == literal[i] as int
    {
      assert SameShapeAt(a, b, p + i);
    }
  }

  lemma StampShape(a: seq<Byte>, b: seq<Byte>, p: nat)
    requires SameShape(a, b)
    ensures StampAt(a, p) <==> StampAt(b, p)
  {
    if p + 19 <= |a| {
      forall i | 0 <= i < 19
        ensures StampByte(a, p, i) <==> StampByte(b, p, i)
      {
        assert SameShapeAt(a, b, p + i);
      }
    }
  }

  lemma {:induction false} FindShape(a: seq<Byte>, b: seq<Byte>, literal: string, from: nat)
    requires SameShape(a, b) && IsLiteral(literal)
    ensures Find(a, literal, from) == Find(b, literal, from)
    decreases |a| - from
  {
    if from + |literal| <= |a| && from < |a| {
      LiteralShape(a, b, from, literal);
      FindShape(a, b, literal, from + 1);
    }
  }

  lemma {:induction false} SkipShape(a: seq<Byte>, b: seq<Byte>, p: nat)
    requires SameShape(a, b)
    ensures SkipWhite(a, p) == SkipWhite(b, p)
    decreases |a| - p
  {
    if p < |a| {
      assert SameShapeAt(a, b, p);
      SkipShape(a, b, p + 1);
    }
  }

  lemma ExpectShape(a: seq<Byte>, b: seq<Byte>, p: Option<nat>, literal: string)
    requires SameShape(a, b) && IsLiteral(literal)
    ensures Expect(a, p, literal) == Expect(b, p, literal)
  {
    if p.Some? {
      SkipShape(a, b, p.value);
      LiteralShape(a, b, SkipWhite(a, p.value), literal);
    }
  }

  lemma {:induction false} ExpectAllShape(a: seq<Byte>, b: seq<Byte>, p: Option<nat>, literals: seq<string>)
    requires SameShape(a, b) && forall i :: 0 <= i < |literals| ==> IsLiteral(literals[i])
    ensures ExpectAll(a, p, literals) == ExpectAll(b, p, literals)
    decreases literals
  {
    if literals != [] {
      ExpectShape(a, b, p, literals[0]);
      ExpectAllShape(a, b, Expect(a, p, literals[0]), literals[1..]);
    }
  }

  lemma FieldPartsAreLiterals()
    ensures forall i :: 0 <= i < |FIELD_PARTS| ==> IsLiteral(FIELD_PARTS[i])
  {
    assert IsLiteral("'Open CASCADE Shape Model'");
  }

  lemma FieldQuoteShape(a: seq<Byte>, b: seq<Byte>, p: nat)
    requires SameShape(a, b)
    ensures FieldQuote(a, p) == FieldQuote(b, p)
  {
    LiteralShape(a, b, p, "FILE_NAME");
    FieldPartsAreLiterals();
    ExpectAllShape(a, b, if LiteralAt(a, p, "FILE_NAME") then Some(p + 9) else None, FIELD_PARTS);
  }

  lemma FieldShape(a: seq<Byte>, b: seq<Byte>, p: nat)
    requires SameShape(a, b)
    ensures FieldAt(a, p) == FieldAt(b, p)
  {
    FieldQuoteShape(a, b, p);
    var quote := FieldQuote(a, p);
    if quote.Some? {
      StampedQuoteShape(a, b, quote.value);
    }
  }

  lemma StampedQuoteShape(a: seq<Byte>, b: seq<Byte>, p: nat)
    requires SameShape(a, b)
    ensures StampedQuote(a, p) <==> StampedQuote(b, p)
  {
    StampShape(a, b, p);
    LiteralShape(a, b, p + 19, "'");
  }

  lemma TokenShape(a: seq<Byte>, b: seq<Byte>, p: nat)
    requires SameShape(a, b)
    ensures TokenAt(a, p) <==> TokenAt(b, p)
  {
    LiteralShape(a, b, p, "FILE_NAME");
    if p + 9 <= |a| {
      assert p > 0 ==> SameShapeAt(a, b, p - 1);
      assert p + 9 < |a| ==> SameShapeAt(a, b, p + 9);
    }
  }

  lemma QuotedShape(a: seq<Byte>, b: seq<Byte>, p: nat)
    requires SameShape(a, b)
    ensures QuotedAt(a, p) <==> QuotedAt(b, p)
  {
    LiteralShape(a, b, p, "'");
    StampedQuoteShape(a, b, p + 1);
  }

  lemma {:induction false} ScanShape(a: seq<Byte>, b: seq<Byte>, p: nat, pattern: Pattern)
    requires |a| == |b| && forall q: nat :: pattern(a, q) == pattern(b, q)
    ensures Scan(a, p, pattern) == Scan(b, p, pattern)
    decreases |a| - p
  {
    if p < |a| {
      var hit := pattern(a, p);
      if hit.Some? && hit.value.end > p {
        ScanShape(a, b, hit.value.end, pattern);
      } else {
        ScanShape(a, b, p + 1, pattern);
      }
    }
  }

  lemma SliceShape(a: seq<Byte>, b: seq<Byte>, start: nat, end: nat)
    requires SameShape(a, b) && start <= end <= |a|
    ensures SameShape(a[start..end], b[start..end])
  {
    forall i | 0 <= i < end - start
      ensures SameShapeAt(a[start..end], b[start..end], i)
    {
      assert SameShapeAt(a, b, start + i);
    }
  }

  lemma HeaderShape(a: seq<Byte>, b: seq<Byte>)
    requires SameShape(a, b)
    ensures LocateInHeader(a) == LocateInHeader(b)
  {
    forall p: nat
      ensures TokenHit(a, p) == TokenHit(b, p)
    {
      TokenShape(a, b, p);
    }
    forall p: nat
      ensures FieldHit(a, p) == FieldHit(b, p)
    {
      FieldShape(a, b, p);
    }
    forall p: nat
      ensures QuotedHit(a, p) == QuotedHit(b, p)
    {
      QuotedShape(a, b, p);
    }
    ScanShape(a, b, 0, TokenHit);
    ScanShape(a, b, 0, FieldHit);
    ScanShape(a, b, 0, QuotedHit);
  }

  lemma SectionShape(a: seq<Byte>, b: seq<Byte>, section: Section)
    requires SameShape(a, b) && section.start <= section.end <= |a|
    ensures LocateInSection(a, section) == LocateInSection(b, section)
  {
    SliceShape(a, b, section.start, section.end);
    HeaderShape(a[section.start..section.end], b[section.start..section.end]);
    assert LocateInSection(a, section) == Shifted(LocateInHeader(b[section.start..section.end]), section.start);
  }

  lemma HeaderSectionShape(a: seq<Byte>, b: seq<Byte>)
    requires SameShape(a, b)
    ensures HeaderSection(a) == HeaderSection(b)
  {
    FindShape(a, b, "HEADER;", 0);
    var mark := Find(a, "HEADER;", 0);
    if mark.Some? {
      FindShape(a, b, "ENDSEC;", mark.value + 7);
    }
  }

  /** Locating depends only on the shape of the file. */
  lemma LocateShape(a: seq<Byte>, b: seq<Byte>)
    requires SameShape(a, b)
    ensures Locate(a) == Locate(b)
  {
    HeaderSectionShape(a, b);
    var section := HeaderSection(a);
    if section.Ok? {
      SectionShape(a, b, section.value);
    }
  }

  lemma StampedShape(data: seq<Byte>, offset: nat)
    requires StampAt(data, offset)
    ensures SameShape(data, Stamped(data, offset))
  {
    StampedParts(data, offset);
    var r, c := Stamped(data, offset), CanonicalBytes();
    assert r[offset..offset + 19] == c;
    forall i | 0 <= i < 19
      ensures StampByte(r, offset, i)
    {
      assert StampByte(c, 0, i);
    }
    SameOutsideSameShape(data, r, offset);
  }

  lemma SameOutsideSameShape(a: seq<Byte>, b: seq<Byte>, offset: nat)
    requires StampAt(a, offset) && StampAt(b, offset)
    requires |a| == |b| && a[..offset] == b[..offset] && a[offset + 19..] == b[offset + 19..]
    ensures SameShape(a, b)
  {
    forall i | 0 <= i < |a|
      ensures SameShapeAt(a, b, i)
    {
      if i < offset {
        assert a[i] == a[..offset][i] && b[i] == b[..offset][i];
      } else if i >= offset + 19 {
        assert a[i] == a[offset + 19..][i - offset - 19] && b[i] == b[offset + 19..][i - offset - 19];
      } else {
        assert StampByte(a, offset, i - offset) && StampByte(b, offset, i - offset);
      }
    }
  }

  // ------------------------------------------------------------- theorems

  /** The field is found again at the same offset, and a second pass changes nothing. */
  lemma NormalizeIsStable(data: seq<Byte>)
    requires Locate(data).Ok?
    ensures Locate(Normal(data)) == Locate(data)
    ensures Normal(Normal(data)) == Normal(data)
  {
    var offset := Locate(data).value;
    LocatedIsStamp(data);
    StampedShape(data, offset);
    LocateShape(data, Normal(data));
    StampedParts(data, offset);
    assert Normal(data) == Normal(data)[..offset] + Normal(data)[offset..offset + 19] + Normal(data)[offset + 19..];
  }

  /** Same length, and the same bytes outside the timestamp the first file has. */
  predicate DifferOnlyInStamp(a: seq<Byte>, b: seq<Byte>)
    requires Locate(a).Ok?
  {
    LocatedIsStamp(a);
    var offset := Locate(a).value;
    |a| == |b| && a[..offset] == b[..offset] && a[offset + 19..] == b[offset + 19..]
  }

  /** Two accepted files normalize to the same bytes exactly when they differ only in the timestamp. */
  lemma NormalFormsAgree(a: seq<Byte>, b: seq<Byte>)
    requires Locate(a).Ok? && Locate(b).Ok?
    ensures Normal(a) == Normal(b) <==> Locate(a) == Locate(b) && DifferOnlyInStamp(a, b)
  {
    NormalizeIsStable(a);
    NormalizeIsStable(b);
    LocatedIsStamp(a);
    LocatedIsStamp(b);
    StampedParts(a, Locate(a).value);
    StampedParts(b, Locate(b).value);
  }

  /** Replacing the timestamp of an accepted file by any other timestamp gives an accepted file
      with the same field, and the same normal form. */
  lemma OtherStampSameNormal(a: seq<Byte>, b: seq<Byte>)
    requires Locate(a).Ok? && DifferOnlyInStamp(a, b) && StampAt(b, Locate(a).value)
    ensures Locate(b) == Locate(a) && Normal(b) == Normal(a)
  {
    LocatedIsStamp(a);
    SameOutsideSameShape(a, b, Locate(a).value);
    LocateShape(a, b);
    NormalFormsAgree(a, b);
  }
}
