/** Finding the one STEP FILE_NAME timestamp in the header section. */
module StampLocation {
  import opened Text
  import opened Bytes

  datatype LocateError =
    | HeaderMissing | HeaderUnterminated
    | TokenMissing | TokenDuplicated
    | FieldMissing | FieldDuplicated
    | TimestampAmbiguous

  // ------------------------------------------------------- byte predicates

  /** `\s` on bytes */
  predicate IsWhite(b: Byte) { 9 <= b <= 13 || b == 32 }

  /** `\w` on bytes */
  predicate IsWord(b: Byte) { IsDigitByte(b) || 65 <= b <= 90 || 97 <= b <= 122 || b == 95 }

  /** A literal of the patterns; none of them contains a digit. */
  predicate IsLiteral(s: string) {
    forall i :: 0 <= i < |s| ==> s[i] as int < 128 && !('0' <= s[i] <= '9')
  }

  predicate LiteralAt(h: seq<Byte>, p: nat, literal: string) {
    p + |literal| <= |h| && forall i :: 0 <= i < |literal| ==> h[p + i] == literal[i] as int
  }

  /** The timestamp pattern, position by position; `d` stands for a digit. */
  function Template(i: nat): char {
    if i == 4 || i == 7 then '-' else if i == 10 then 'T' else if i == 13 || i == 16 then ':' else 'd'
  }

  predicate StampByte(h: seq<Byte>, p: nat, i: nat)
    requires p + i < |h|
  {
    if Template(i) == 'd' then IsDigitByte(h[p + i]) else h[p + i] == Template(i) as int
  }

  /** `\d{4}-\d{2}-\d{2}T\d{2}:\d{2}:\d{2}` */
  predicate StampAt(h: seq<Byte>, p: nat) {
    p + 19 <= |h| && forall i :: 0 <= i < 19 ==> StampByte(h, p, i)
  }

  /** `bytes.find(literal, from)` */
  function Find(data: seq<Byte>, literal: string, from: nat): (r: Option<nat>)
    ensures r.Some? ==> r.value >= from && LiteralAt(data, r.value, literal)
    decreases |data| - from
  {
    if from + |literal| > |data| || |data| <= from then None
    else if LiteralAt(data, from, literal) then Some(from)
    else Find(data, literal, from + 1)
  }

  // ------------------------------------------------------- the three patterns

  /** `\bFILE_NAME\b` */
  predicate TokenAt(h: seq<Byte>, p: nat) {
    && LiteralAt(h, p, "FILE_NAME")
    && (p == 0 || !IsWord(h[p - 1]))
    && (p + 9 == |h| || !IsWord(h[p + 9]))
  }

  /** `\s*` before something that is not white space: there is one way to match it. */
  function SkipWhite(h: seq<Byte>, p: nat): (q: nat)
    ensures p <= q
    decreases |h| - p
  {
    if p < |h| && IsWhite(h[p]) then SkipWhite(h, p + 1) else p
  }

  /** White space, then the literal: where the literal ends. */
  function Expect(h: seq<Byte>, p: Option<nat>, literal: string): (q: Option<nat>)
    ensures q.Some? ==> p.Some? && p.value + |literal| <= q.value <= |h|
  {
    if p.Some? && LiteralAt(h, SkipWhite(h, p.value), literal) then Some(SkipWhite(h, p.value) + |literal|) else None
  }

  /** The literals one after the other, each after white space. */
  function ExpectAll(h: seq<Byte>, p: Option<nat>, literals: seq<string>): (q: Option<nat>)
    ensures q.Some? ==> p.Some? && p.value <= q.value
    decreases literals
  {
    if literals == [] then p else ExpectAll(h, Expect(h, p, literals[0]), literals[1..])
  }

  const FIELD_PARTS := ["(", "'Open CASCADE Shape Model'", ",", "'"]

  /** What comes before the timestamp of a FILE_NAME field that starts at `p`: where it ends. */
  function FieldQuote(h: seq<Byte>, p: nat): (quote: Option<nat>)
    ensures quote.Some? ==> p < quote.value
  {
    ExpectAll(h, if LiteralAt(h, p, "FILE_NAME") then Some(p + 9) else None, FIELD_PARTS)
  }

  /** The timestamp and the quote that closes it. */
  predicate StampedQuote(h: seq<Byte>, p: nat) {
    StampAt(h, p) && LiteralAt(h, p + 19, "'")
  }

  /** Where the timestamp of a FILE_NAME field that matches at `p` starts. */
  function FieldAt(h: seq<Byte>, p: nat): (stamp: Option<nat>)
    ensures stamp.Some? ==> p < stamp.value && StampAt(h, stamp.value)
  {
    var quote := FieldQuote(h, p);
    if quote.Some? && StampedQuote(h, quote.value) then quote else None
  }

  /** `'(timestamp)'` */
  predicate QuotedAt(h: seq<Byte>, p: nat) {
    LiteralAt(h, p, "'") && StampedQuote(h, p + 1)
  }

  /** A match: what it captures starts at `start`, and the search goes on at `end`. */
  datatype Hit = Hit(start: nat, end: nat)

  type Pattern = (seq<Byte>, nat) -> Option<Hit>

  function TokenHit(h: seq<Byte>, p: nat): Option<Hit> {
    if TokenAt(h, p) then Some(Hit(p, p + 9)) else None
  }

  function FieldHit(h: seq<Byte>, p: nat): Option<Hit> {
    var stamp := FieldAt(h, p);
    if stamp.Some? then Some(Hit(stamp.value, stamp.value + 20)) else None
  }

  function QuotedHit(h: seq<Byte>, p: nat): Option<Hit> {
    if QuotedAt(h, p) then Some(Hit(p + 1, p + 21)) else None
  }

  /** The leftmost match from `p` on, then the next one after its end, as `finditer` does. No match is empty. */
  function Scan(h: seq<Byte>, p: nat, pattern: Pattern): seq<nat>
    decreases |h| - p
  {
    if p >= |h| then []
    else
      var hit := pattern(h, p);
      if hit.Some? && hit.value.end > p then [hit.value.start] + Scan(h, hit.value.end, pattern)
      else Scan(h, p + 1, pattern)
  }

  /** Every scanned start comes from a match. */
  lemma {:induction false} ScanHits(h: seq<Byte>, p: nat, pattern: Pattern)
    ensures forall i :: 0 <= i < |Scan(h, p, pattern)| ==> Hits(h, pattern, Scan(h, p, pattern)[i])
    decreases |h| - p
  {
    if p < |h| {
      var hit := pattern(h, p);
      if hit.Some? && hit.value.end > p {
        ScanHits(h, hit.value.end, pattern);
        assert Hits(h, pattern, hit.value.start);
      } else {
        ScanHits(h, p + 1, pattern);
      }
    }
  }

  ghost predicate Hits(h: seq<Byte>, pattern: Pattern, start: nat) {
    exists p: nat :: pattern(h, p).Some? && pattern(h, p).value.start == start
  }

  predicate Matches(h: seq<Byte>, pattern: Pattern, q: nat) {
    q < |h| && pattern(h, q).Some? && pattern(h, q).value.end > q
  }

  /** The match at `q` covers position `x`. */
  predicate Covers(h: seq<Byte>, pattern: Pattern, q: nat, x: nat) {
    Matches(h, pattern, q) && q <= x < pattern(h, q).value.end
  }

  /** The listed matches start no earlier than `p`, and each after the end of the one before. */
  ghost predicate AreApart(h: seq<Byte>, p: nat, pattern: Pattern, at: seq<nat>) {
    forall i :: 0 <= i < |at| ==> IsApart(h, p, pattern, at, i)
  }

  ghost predicate IsApart(h: seq<Byte>, p: nat, pattern: Pattern, at: seq<nat>, i: nat)
    requires i < |at|
  {
    && Matches(h, pattern, at[i]) && p <= at[i]
    && (i + 1 < |at| ==> pattern(h, at[i]).value.end <= at[i + 1])
  }

  ghost predicate IsCovered(h: seq<Byte>, pattern: Pattern, at: seq<nat>, q: nat) {
    exists i :: 0 <= i < |at| && Covers(h, pattern, at[i], q)
  }

  /** The scan lists all leftmost matches that do not overlap: they lie apart, and any match from `p` on
      starts inside a listed one. */
  lemma {:induction false} ScanIsLeftmost(h: seq<Byte>, p: nat, pattern: Pattern) returns (at: seq<nat>)
    ensures |at| == |Scan(h, p, pattern)| && AreApart(h, p, pattern, at)
    ensures forall i :: 0 <= i < |at| ==>
      Matches(h, pattern, at[i]) && Scan(h, p, pattern)[i] == pattern(h, at[i]).value.start
    ensures forall q :: p <= q && Matches(h, pattern, q) ==> IsCovered(h, pattern, at, q)
    decreases |h| - p
  {
    if p >= |h| {
      at := [];
    } else if Matches(h, pattern, p) {
      var rest := ScanIsLeftmost(h, pattern(h, p).value.end, pattern);
      at := [p] + rest;
      ApartAfter(h, p, pattern, rest);
      forall q | p <= q && Matches(h, pattern, q)
        ensures IsCovered(h, pattern, at, q)
      {
        CoveredAfter(h, p, pattern, rest, q);
      }
    } else {
      at := ScanIsLeftmost(h, p + 1, pattern);
      forall i | 0 <= i < |at|
        ensures IsApart(h, p, pattern, at, i)
      {
        assert IsApart(h, p + 1, pattern, at, i);
      }
    }
    forall i | 0 <= i < |at|
      ensures Matches(h, pattern, at[i])
    {
      assert IsApart(h, p, pattern, at, i);
    }
  }

  lemma ApartAfter(h: seq<Byte>, p: nat, pattern: Pattern, rest: seq<nat>)
    requires Matches(h, pattern, p) && AreApart(h, pattern(h, p).value.end, pattern, rest)
    ensures AreApart(h, p, pattern, [p] + rest)
  {
    var at, end := [p] + rest, pattern(h, p).value.end;
    forall i | 0 <= i < |at|
      ensures IsApart(h, p, pattern, at, i)
    {
      assert i > 0 ==> IsApart(h, end, pattern, rest, i - 1);
      assert i == 0 && rest != [] ==> IsApart(h, end, pattern, rest, 0);
    }
  }

  lemma CoveredAfter(h: seq<Byte>, p: nat, pattern: Pattern, rest: seq<nat>, q: nat)
    requires Matches(h, pattern, p) && p <= q
    requires q < pattern(h, p).value.end || IsCovered(h, pattern, rest, q)
    ensures IsCovered(h, pattern, [p] + rest, q)
  {
    var at := [p] + rest;
    if q < pattern(h, p).value.end {
      assert Covers(h, pattern, at[0], q);
    } else {
      var i :| 0 <= i < |rest| && Covers(h, pattern, rest[i], q);
      assert Covers(h, pattern, at[i + 1], q);
    }
  }

  // --------------------------------------------- the field pattern in full

  /** White space alone, from `i` up to `j`. */
  predicate IsGap(h: seq<Byte>, i: nat, j: nat) {
    i <= j <= |h| && forall k :: i <= k < j ==> IsWhite(h[k])
  }

  /** `FILE_NAME`, `(`, `'Open CASCADE Shape Model'`, `,` and `'`, with gaps between them; then the stamp and `'`.
      The four gaps end at `a`, `b`, `c` and `d`. */
  predicate IsFieldWith(h: seq<Byte>, p: nat, stamp: nat, a: nat, b: nat, c: nat, d: nat) {
    && LiteralAt(h, p, "FILE_NAME") && IsGap(h, p + 9, a) && LiteralAt(h, a, "(") && IsGap(h, a + 1, b)
    && LiteralAt(h, b, "'Open CASCADE Shape Model'") && IsGap(h, b + 26, c) && LiteralAt(h, c, ",") && IsGap(h, c + 1, d)
    && LiteralAt(h, d, "'") && stamp == d + 1 && StampAt(h, stamp) && LiteralAt(h, stamp + 19, "'")
  }

  ghost predicate FieldPattern(h: seq<Byte>, p: nat, stamp: nat) {
    exists a: nat, b: nat, c: nat, d: nat :: IsFieldWith(h, p, stamp, a, b, c, d)
  }

  lemma {:induction false} SkipIsGap(h: seq<Byte>, p: nat)
    requires p <= |h|
    ensures IsGap(h, p, SkipWhite(h, p))
    ensures SkipWhite(h, p) < |h| ==> !IsWhite(h[SkipWhite(h, p)])
    decreases |h| - p
  {
    if p < |h| && IsWhite(h[p]) {
      SkipIsGap(h, p + 1);
    }
  }

  /** White space before something else is skipped in one way. */
  lemma {:induction false} GapIsSkipped(h: seq<Byte>, p: nat, a: nat)
    requires IsGap(h, p, a) && a < |h| && !IsWhite(h[a])
    ensures SkipWhite(h, p) == a
    decreases a - p
  {
    if p < a {
      GapIsSkipped(h, p + 1, a);
    }
  }

  predicate StartsDark(literal: string) {
    literal != "" && literal[0] as int < 128 && !IsWhite(literal[0] as int)
  }

  lemma ExpectIff(h: seq<Byte>, p: nat, literal: string, q: nat)
    requires p <= |h| && StartsDark(literal)
    ensures Expect(h, Some(p), literal) == Some(q)
       <==> q >= |literal| && IsGap(h, p, q - |literal|) && LiteralAt(h, q - |literal|, literal)
  {
    SkipIsGap(h, p);
    if q >= |literal| && IsGap(h, p, q - |literal|) && LiteralAt(h, q - |literal|, literal) {
      assert h[q - |literal| + 0] == literal[0] as int;
      GapIsSkipped(h, p, q - |literal|);
    }
  }

  /** The four literals, each after a gap; the gaps end at `a`, `b`, `c` and `d`. */
  predicate AreParts(h: seq<Byte>, p: nat, q: nat, parts: seq<string>, a: nat, b: nat, c: nat, d: nat)
    requires |parts| == 4
  {
    && IsGap(h, p, a) && LiteralAt(h, a, parts[0]) && IsGap(h, a + |parts[0]|, b) && LiteralAt(h, b, parts[1])
    && IsGap(h, b + |parts[1]|, c) && LiteralAt(h, c, parts[2]) && IsGap(h, c + |parts[2]|, d) && LiteralAt(h, d, parts[3])
    && q == d + |parts[3]|
  }

  ghost predicate AllDark(parts: seq<string>) {
    forall i :: 0 <= i < |parts| ==> StartsDark(parts[i])
  }

  lemma ExpectFrom(h: seq<Byte>, p: nat, literal: string, a: nat)
    requires StartsDark(literal) && IsGap(h, p, a) && LiteralAt(h, a, literal)
    ensures Expect(h, Some(p), literal) == Some(a + |literal|)
  {
    ExpectIff(h, p, literal, a + |literal|);
  }

  lemma ExpectNext(h: seq<Byte>, p: Option<nat>, literal: string, rest: seq<string>)
    ensures ExpectAll(h, p, [literal] + rest) == ExpectAll(h, Expect(h, p, literal), rest)
  {
    assert ([literal] + rest)[1..] == rest;
  }

  lemma FourParts(h: seq<Byte>, p: Option<nat>, parts: seq<string>)
    requires |parts| == 4
    ensures ExpectAll(h, p, parts) == Expect(h, Expect(h, Expect(h, Expect(h, p, parts[0]), parts[1]), parts[2]), parts[3])
  {
    var first := Expect(h, p, parts[0]);
    var second := Expect(h, first, parts[1]);
    var third := Expect(h, second, parts[2]);
    assert parts == [parts[0]] + [parts[1], parts[2], parts[3]];
    assert [parts[1], parts[2], parts[3]] == [parts[1]] + [parts[2], parts[3]];
    assert [parts[2], parts[3]] == [parts[2]] + [parts[3]] && [parts[3]] == [parts[3]] + [];
    ExpectNext(h, p, parts[0], [parts[1], parts[2], parts[3]]);
    ExpectNext(h, first, parts[1], [parts[2], parts[3]]);
    ExpectNext(h, second, parts[2], [parts[3]]);
    ExpectNext(h, third, parts[3], []);
  }

  lemma PartsAreExpected(h: seq<Byte>, p: nat, q: nat, parts: seq<string>, a: nat, b: nat, c: nat, d: nat)
    requires |parts| == 4 && AllDark(parts) && AreParts(h, p, q, parts, a, b, c, d)
    ensures ExpectAll(h, Some(p), parts) == Some(q)
  {
    ExpectFrom(h, p, parts[0], a);
    ExpectFrom(h, a + |parts[0]|, parts[1], b);
    ExpectFrom(h, b + |parts[1]|, parts[2], c);
    ExpectFrom(h, c + |parts[2]|, parts[3], d);
    FourSteps(h, p, parts, a + |parts[0]|, b + |parts[1]|, c + |parts[2]|, d + |parts[3]|);
  }

  lemma FourSteps(h: seq<Byte>, p: nat, parts: seq<string>, a: nat, b: nat, c: nat, d: nat)
    requires |parts| == 4 && Expect(h, Some(p), parts[0]) == Some(a) && Expect(h, Some(a), parts[1]) == Some(b)
    requires Expect(h, Some(b), parts[2]) == Some(c) && Expect(h, Some(c), parts[3]) == Some(d)
    ensures ExpectAll(h, Some(p), parts) == Some(d)
  {
    FourParts(h, Some(p), parts);
  }

  lemma ExpectedParts(h: seq<Byte>, p: nat, parts: seq<string>) returns (a: nat, b: nat, c: nat, d: nat)
    requires p <= |h| && |parts| == 4 && AllDark(parts) && ExpectAll(h, Some(p), parts).Some?
    ensures AreParts(h, p, ExpectAll(h, Some(p), parts).value, parts, a, b, c, d)
  {
    FourParts(h, Some(p), parts);
    var first := Expect(h, Some(p), parts[0]);
    var second := Expect(h, first, parts[1]);
    var third := Expect(h, second, parts[2]);
    var fourth := Expect(h, third, parts[3]);
    ExpectIff(h, p, parts[0], first.value);
    ExpectIff(h, first.value, parts[1], second.value);
    ExpectIff(h, second.value, parts[2], third.value);
    ExpectIff(h, third.value, parts[3], fourth.value);
    a, b, c, d := first.value - |parts[0]|, second.value - |parts[1]|, third.value - |parts[2]|, fourth.value - |parts[3]|;
  }

  lemma PartsAreDark()
    ensures AllDark(FIELD_PARTS)
  {
  }

  /** With the literals of the field in place, the parts are those of the pattern. */
  lemma PartsOfField(h: seq<Byte>, p: nat, stamp: nat, a: nat, b: nat, c: nat, d: nat)
    ensures AreParts(h, p, stamp, FIELD_PARTS, a, b, c, d)
       <==> && IsGap(h, p, a) && LiteralAt(h, a, "(") && IsGap(h, a + 1, b)
            && LiteralAt(h, b, "'Open CASCADE Shape Model'") && IsGap(h, b + 26, c) && LiteralAt(h, c, ",")
            && IsGap(h, c + 1, d) && LiteralAt(h, d, "'") && stamp == d + 1
  {
    assert |FIELD_PARTS[1]| == 26;
  }

  /** A field is recognised exactly where the pattern matches, with the stamp that it captures. */
  lemma FieldIffPattern(h: seq<Byte>, p: nat, stamp: nat)
    ensures FieldAt(h, p) == Some(stamp) <==> FieldPattern(h, p, stamp)
  {
    if FieldAt(h, p) == Some(stamp) {
      var a, b, c, d := PartsOfQuote(h, p);
      assert IsFieldWith(h, p, stamp, a, b, c, d);
    }
    if FieldPattern(h, p, stamp) {
      var a: nat, b: nat, c: nat, d: nat :| IsFieldWith(h, p, stamp, a, b, c, d);
      QuoteOfParts(h, p, stamp, a, b, c, d);
    }
  }

  lemma PartsOfQuote(h: seq<Byte>, p: nat) returns (a: nat, b: nat, c: nat, d: nat)
    requires FieldQuote(h, p).Some?
    ensures var stamp := FieldQuote(h, p).value;
            && LiteralAt(h, p, "FILE_NAME") && IsGap(h, p + 9, a) && LiteralAt(h, a, "(") && IsGap(h, a + 1, b)
            && LiteralAt(h, b, "'Open CASCADE Shape Model'") && IsGap(h, b + 26, c) && LiteralAt(h, c, ",")
            && IsGap(h, c + 1, d) && LiteralAt(h, d, "'") && stamp == d + 1
  {
    PartsAreDark();
    a, b, c, d := ExpectedParts(h, p + 9, FIELD_PARTS);
    PartsOfField(h, p + 9, FieldQuote(h, p).value, a, b, c, d);
  }

  /** The opening alone, without the stamp. */
  lemma OpeningIsParts(h: seq<Byte>, p: nat, stamp: nat, a: nat, b: nat, c: nat, d: nat)
    requires IsFieldWith(h, p, stamp, a, b, c, d)
    ensures AreParts(h, p + 9, stamp, FIELD_PARTS, a, b, c, d)
  {
    PartsOfField(h, p + 9, stamp, a, b, c, d);
  }

  lemma QuoteOfParts(h: seq<Byte>, p: nat, stamp: nat, a: nat, b: nat, c: nat, d: nat)
    requires IsFieldWith(h, p, stamp, a, b, c, d)
    ensures FieldQuote(h, p) == Some(stamp)
  {
    var parts := FieldParts(h, p, stamp, a, b, c, d);
    PartsAreQuote(h, p, stamp, parts, a, b, c, d);
  }

  lemma FieldParts(h: seq<Byte>, p: nat, stamp: nat, a: nat, b: nat, c: nat, d: nat) returns (parts: seq<string>)
    requires IsFieldWith(h, p, stamp, a, b, c, d)
    ensures IsOpening(h, p, parts) && AreParts(h, p + 9, stamp, parts, a, b, c, d)
  {
    parts := FIELD_PARTS;
    OpeningIsParts(h, p, stamp, a, b, c, d);
  }

  ghost predicate IsOpening(h: seq<Byte>, p: nat, parts: seq<string>) {
    parts == FIELD_PARTS && LiteralAt(h, p, "FILE_NAME") && |parts| == 4
  }

  lemma PartsAreQuote(h: seq<Byte>, p: nat, stamp: nat, parts: seq<string>, a: nat, b: nat, c: nat, d: nat)
    requires IsOpening(h, p, parts) && AreParts(h, p + 9, stamp, parts, a, b, c, d)
    ensures FieldQuote(h, p) == Some(stamp)
  {
    OpeningIsExpected(h, p + 9, stamp, parts, a, b, c, d);
    ExpectedIsQuote(h, p, stamp, parts);
  }

  lemma OpeningIsExpected(h: seq<Byte>, p: nat, stamp: nat, parts: seq<string>, a: nat, b: nat, c: nat, d: nat)
    requires parts == FIELD_PARTS && AreParts(h, p, stamp, parts, a, b, c, d)
    ensures ExpectAll(h, Some(p), parts) == Some(stamp)
  {
    PartsAreDark();
    PartsAreExpected(h, p, stamp, parts, a, b, c, d);
  }

  lemma ExpectedIsQuote(h: seq<Byte>, p: nat, stamp: nat, parts: seq<string>)
    requires parts == FIELD_PARTS && LiteralAt(h, p, "FILE_NAME") && ExpectAll(h, Some(p + 9), parts) == Some(stamp)
    ensures FieldQuote(h, p) == Some(stamp)
  {
  }

  // -------------------------------------------------- how often one matches

  lemma {:induction false} ScanNothingIff(h: seq<Byte>, p: nat, pattern: Pattern)
    ensures Scan(h, p, pattern) == [] <==> forall r :: p <= r ==> !Matches(h, pattern, r)
    decreases |h| - p
  {
    if p < |h| && !Matches(h, pattern, p) {
      ScanNothingIff(h, p + 1, pattern);
    }
  }

  /** The match at `r` is the first from `p` on, and every other one begins inside it. */
  ghost predicate IsOnlyMatch(h: seq<Byte>, p: nat, pattern: Pattern, r: nat) {
    && p <= r && Matches(h, pattern, r)
    && forall s :: p <= s && Matches(h, pattern, s) ==> r <= s < pattern(h, r).value.end
  }

  lemma {:induction false} ScanOneIff(h: seq<Byte>, p: nat, pattern: Pattern)
    ensures |Scan(h, p, pattern)| == 1 <==> exists r: nat :: IsOnlyMatch(h, p, pattern, r)
    ensures forall r: nat :: IsOnlyMatch(h, p, pattern, r) ==> Scan(h, p, pattern) == [pattern(h, r).value.start]
    decreases |h| - p
  {
    if p >= |h| {
    } else if Matches(h, pattern, p) {
      var end := pattern(h, p).value.end;
      ScanNothingIff(h, end, pattern);
      OnlyFirst(h, p, pattern);
      assert Scan(h, p, pattern) == [pattern(h, p).value.start] + Scan(h, end, pattern);
      assert IsOnlyMatch(h, p, pattern, p) <==> Scan(h, end, pattern) == [];
    } else {
      ScanOneIff(h, p + 1, pattern);
      OnlyLater(h, p, pattern);
      var next := p + 1;
      if r: nat :| IsOnlyMatch(h, next, pattern, r) {
        assert IsOnlyMatch(h, p, pattern, r);
      }
    }
  }

  lemma OnlyFirst(h: seq<Byte>, p: nat, pattern: Pattern)
    requires Matches(h, pattern, p)
    ensures forall r: nat :: IsOnlyMatch(h, p, pattern, r) ==> r == p
    ensures IsOnlyMatch(h, p, pattern, p) <==> forall r :: pattern(h, p).value.end <= r ==> !Matches(h, pattern, r)
  {
    if IsOnlyMatch(h, p, pattern, p) {
      forall r | pattern(h, p).value.end <= r
        ensures !Matches(h, pattern, r)
      {
      }
    }
  }

  lemma OnlyLater(h: seq<Byte>, p: nat, pattern: Pattern)
    requires !Matches(h, pattern, p)
    ensures forall r: nat :: IsOnlyMatch(h, p, pattern, r) <==> IsOnlyMatch(h, p + 1, pattern, r)
  {
    forall r: nat
      ensures IsOnlyMatch(h, p, pattern, r) <==> IsOnlyMatch(h, p + 1, pattern, r)
    {
      if IsOnlyMatch(h, p + 1, pattern, r) {
        forall s | p <= s && Matches(h, pattern, s)
          ensures r <= s < pattern(h, r).value.end
        {
          assert s != p;
        }
      }
    }
  }

  ghost predicate IsOnlyToken(h: seq<Byte>, p: nat) {
    TokenAt(h, p) && forall r: nat :: TokenAt(h, r) ==> r == p
  }

  ghost predicate IsOnlyField(h: seq<Byte>, p: nat, stamp: nat) {
    FieldPattern(h, p, stamp) && forall r: nat, s: nat :: FieldPattern(h, r, s) ==> r == p
  }

  /** The quoted stamp at `q` is the only one, but for one that begins with its closing quote. */
  ghost predicate IsOnlyQuoted(h: seq<Byte>, q: nat) {
    QuotedAt(h, q) && forall r: nat :: QuotedAt(h, r) ==> r == q || r == q + 20
  }

  lemma TokenCount(h: seq<Byte>)
    ensures Scan(h, 0, TokenHit) == [] <==> forall p: nat :: !TokenAt(h, p)
    ensures |Scan(h, 0, TokenHit)| == 1 <==> exists p: nat :: IsOnlyToken(h, p)
  {
    ScanNothingIff(h, 0, TokenHit);
    ScanOneIff(h, 0, TokenHit);
    forall p: nat
      ensures Matches(h, TokenHit, p) <==> TokenAt(h, p)
      ensures IsOnlyMatch(h, 0, TokenHit, p) <==> IsOnlyToken(h, p)
    {
      OnlyTokenMatch(h, p);
    }
  }

  lemma OneF(h: seq<Byte>, p: nat, r: nat)
    requires LiteralAt(h, p, "FILE_NAME") && LiteralAt(h, r, "FILE_NAME") && p <= r < p + 9
    ensures r == p
  {
    var literal := "FILE_NAME";
    assert h[r + 0] == literal[0] as int && h[p + (r - p)] == literal[r - p] as int;
    assert forall i :: 1 <= i < 9 ==> literal[i] != 'F';
  }

  lemma OnlyTokenMatch(h: seq<Byte>, p: nat)
    ensures Matches(h, TokenHit, p) <==> TokenAt(h, p)
    ensures IsOnlyMatch(h, 0, TokenHit, p) <==> IsOnlyToken(h, p)
  {
    forall r: nat
      ensures Matches(h, TokenHit, r) <==> TokenAt(h, r)
      ensures TokenAt(h, p) && TokenAt(h, r) && p <= r < p + 9 ==> r == p
    {
      if TokenAt(h, p) && TokenAt(h, r) && p <= r < p + 9 {
        OneF(h, p, r);
      }
    }
  }

  // ------------------------------------------ fields cannot overlap

  /** No byte from `i` up to `j` is the letter that a field starts with. */
  predicate HasNoF(h: seq<Byte>, i: nat, j: nat) {
    j <= |h| && forall k :: i <= k < j ==> h[k] != 'F' as int
  }

  lemma LiteralHasNoF(h: seq<Byte>, i: nat, literal: string)
    requires LiteralAt(h, i, literal) && 'F' !in literal
    ensures HasNoF(h, i, i + |literal|)
  {
    forall k | i <= k < i + |literal|
      ensures h[k] != 'F' as int
    {
      assert h[i + (k - i)] == literal[k - i] as int && literal[k - i] in literal;
    }
  }

  lemma StampHasNoF(h: seq<Byte>, i: nat)
    requires StampAt(h, i)
    ensures HasNoF(h, i, i + 19)
  {
    forall k | i <= k < i + 19
      ensures h[k] != 'F' as int
    {
      assert StampByte(h, i, k - i);
    }
  }

  lemma PlainLiterals()
    ensures 'F' !in "(" && 'F' !in "'Open CASCADE Shape Model'" && 'F' !in "," && 'F' !in "'"
    ensures |"'Open CASCADE Shape Model'"| == 26
  {
  }

  lemma OnlyFirstF(h: seq<Byte>, p: nat)
    requires LiteralAt(h, p, "FILE_NAME")
    ensures HasNoF(h, p + 1, p + 9)
  {
    var literal := "FILE_NAME";
    assert forall i :: 1 <= i < 9 ==> literal[i] != 'F';
    forall k | p + 1 <= k < p + 9
      ensures h[k] != 'F' as int
    {
      assert h[p + (k - p)] == literal[k - p] as int;
    }
  }

  lemma FieldHasOneF(h: seq<Byte>, p: nat, stamp: nat, a: nat, b: nat, c: nat, d: nat)
    requires IsFieldWith(h, p, stamp, a, b, c, d)
    ensures HasNoF(h, p + 1, stamp + 20)
  {
    PlainLiterals();
    OnlyFirstF(h, p);
    LiteralHasNoF(h, a, "(");
    LiteralHasNoF(h, b, "'Open CASCADE Shape Model'");
    LiteralHasNoF(h, c, ",");
    LiteralHasNoF(h, d, "'");
    StampHasNoF(h, stamp);
    LiteralHasNoF(h, stamp + 19, "'");
  }

  lemma FieldsLieApart(h: seq<Byte>, p: nat, stamp: nat, r: nat, s: nat)
    requires FieldPattern(h, p, stamp) && FieldPattern(h, r, s) && p <= r < stamp + 20
    ensures r == p
  {
    var a: nat, b: nat, c: nat, d: nat :| IsFieldWith(h, p, stamp, a, b, c, d);
    FieldHasOneF(h, p, stamp, a, b, c, d);
    var a', b', c', d' :| IsFieldWith(h, r, s, a', b', c', d');
    var literal := "FILE_NAME";
    assert h[r + 0] == literal[0] as int;
  }

  lemma FieldMatch(h: seq<Byte>, p: nat)
    ensures Matches(h, FieldHit, p) <==> exists stamp: nat :: FieldPattern(h, p, stamp)
    ensures forall stamp: nat :: FieldPattern(h, p, stamp) ==> FieldHit(h, p) == Some(Hit(stamp, stamp + 20))
  {
    forall stamp: nat
      ensures FieldAt(h, p) == Some(stamp) <==> FieldPattern(h, p, stamp)
    {
      FieldIffPattern(h, p, stamp);
    }
    if FieldAt(h, p).Some? {
      assert FieldPattern(h, p, FieldAt(h, p).value);
    }
  }

  lemma OnlyFieldMatch(h: seq<Byte>, p: nat, stamp: nat)
    requires FieldPattern(h, p, stamp)
    ensures IsOnlyMatch(h, 0, FieldHit, p) <==> IsOnlyField(h, p, stamp)
  {
    FieldMatch(h, p);
    if IsOnlyField(h, p, stamp) {
      forall r: nat | Matches(h, FieldHit, r)
        ensures p <= r < stamp + 20
      {
        FieldMatch(h, r);
        FieldLength(h, p, stamp);
      }
    }
    if IsOnlyMatch(h, 0, FieldHit, p) {
      forall r: nat, s: nat | FieldPattern(h, r, s)
        ensures r == p
      {
        FieldMatch(h, r);
        FieldsLieApart(h, p, stamp, r, s);
      }
    }
  }

  lemma FieldLength(h: seq<Byte>, p: nat, stamp: nat)
    requires FieldPattern(h, p, stamp)
    ensures p < stamp
  {
    FieldIffPattern(h, p, stamp);
  }

  lemma NoFieldCount(h: seq<Byte>)
    ensures Scan(h, 0, FieldHit) == [] <==> forall p: nat, stamp: nat :: !FieldPattern(h, p, stamp)
  {
    ScanNothingIff(h, 0, FieldHit);
    if r: nat :| Matches(h, FieldHit, r) { FieldMatch(h, r); }
    if p: nat, stamp: nat :| FieldPattern(h, p, stamp) { FieldMatch(h, p); }
  }

  lemma OneFieldCount(h: seq<Byte>)
    ensures |Scan(h, 0, FieldHit)| == 1 <==> exists p: nat, stamp: nat :: IsOnlyField(h, p, stamp)
  {
    ScanOneIff(h, 0, FieldHit);
    if r: nat :| IsOnlyMatch(h, 0, FieldHit, r) {
      FieldMatch(h, r);
      var stamp: nat :| FieldPattern(h, r, stamp);
      OnlyFieldMatch(h, r, stamp);
    }
    if p: nat, stamp: nat :| IsOnlyField(h, p, stamp) {
      OnlyFieldMatch(h, p, stamp);
    }
  }

  lemma OnlyFieldScan(h: seq<Byte>, p: nat, stamp: nat)
    requires IsOnlyField(h, p, stamp)
    ensures Scan(h, 0, FieldHit) == [stamp]
  {
    ScanOneIff(h, 0, FieldHit);
    OnlyFieldMatch(h, p, stamp);
    FieldMatch(h, p);
  }

  lemma FieldCount(h: seq<Byte>)
    ensures Scan(h, 0, FieldHit) == [] <==> forall p: nat, stamp: nat :: !FieldPattern(h, p, stamp)
    ensures |Scan(h, 0, FieldHit)| == 1 <==> exists p: nat, stamp: nat :: IsOnlyField(h, p, stamp)
    ensures forall p: nat, stamp: nat :: IsOnlyField(h, p, stamp) ==> Scan(h, 0, FieldHit) == [stamp]
  {
    NoFieldCount(h);
    OneFieldCount(h);
    forall p: nat, stamp: nat | IsOnlyField(h, p, stamp)
      ensures Scan(h, 0, FieldHit) == [stamp]
    {
      OnlyFieldScan(h, p, stamp);
    }
  }

  // ------------------------------------------------------- quoted stamps

  lemma QuoteInside(h: seq<Byte>, q: nat, r: nat)
    requires QuotedAt(h, q) && QuotedAt(h, r) && q <= r < q + 21
    ensures r == q || r == q + 20
  {
    var literal := "'";
    assert h[r + 0] == literal[0] as int;
    assert q < r < q + 20 ==> StampByte(h, q + 1, r - q - 1);
  }

  lemma QuotedCount(h: seq<Byte>, q: nat)
    ensures Scan(h, 0, QuotedHit) == [q + 1] <==> IsOnlyQuoted(h, q)
  {
    ScanOneIff(h, 0, QuotedHit);
    forall r: nat
      ensures Matches(h, QuotedHit, r) <==> QuotedAt(h, r)
    {
    }
    if IsOnlyQuoted(h, q) {
      assert IsOnlyMatch(h, 0, QuotedHit, q);
    }
    if Scan(h, 0, QuotedHit) == [q + 1] {
      var p: nat :| IsOnlyMatch(h, 0, QuotedHit, p);
      forall r: nat | QuotedAt(h, r)
        ensures r == q || r == q + 20
      {
        QuoteInside(h, q, r);
      }
    }
  }

  // ------------------------------------------------ the header in full

  /** One FILE_NAME token, one field, and no quoted stamp but the field's own, at `stamp`. */
  ghost predicate HoldsOneField(header: seq<Byte>, stamp: nat) {
    && (exists p: nat :: IsOnlyToken(header, p)) && (exists p: nat :: IsOnlyField(header, p, stamp))
    && stamp > 0 && IsOnlyQuoted(header, stamp - 1)
  }

  // ------------------------------------------------------------- locating

  function LocateInHeader(header: seq<Byte>): Result<nat, LocateError> {
    var tokens, fields, quoted := Scan(header, 0, TokenHit), Scan(header, 0, FieldHit), Scan(header, 0, QuotedHit);
    if |tokens| != 1 then Err(if |tokens| == 0 then TokenMissing else TokenDuplicated)
    else if |fields| != 1 then Err(if |fields| == 0 then FieldMissing else FieldDuplicated)
    else if |quoted| != 1 || quoted[0] != fields[0] then Err(TimestampAmbiguous)
    else Ok(fields[0])
  }

  /** Between `HEADER;` and the next `ENDSEC;`. */
  datatype Section = Section(start: nat, end: nat)

  function HeaderSection(data: seq<Byte>): (r: Result<Section, LocateError>)
    ensures r.Ok? ==> r.value.start <= r.value.end <= |data|
  {
    var mark := Find(data, "HEADER;", 0);
    if mark.None? then Err(HeaderMissing)
    else
      var end := Find(data, "ENDSEC;", mark.value + 7);
      if end.None? then Err(HeaderUnterminated) else Ok(Section(mark.value + 7, end.value))
  }

  function LocateInSection(data: seq<Byte>, section: Section): Result<nat, LocateError>
    requires section.start <= section.end <= |data|
  {
    Shifted(LocateInHeader(data[section.start..section.end]), section.start)
  }

  function Shifted(found: Result<nat, LocateError>, start: nat): Result<nat, LocateError> {
    if found.Err? then found else Ok(start + found.value)
  }

  function Locate(data: seq<Byte>): Result<nat, LocateError> {
    var section := HeaderSection(data);
    if section.Err? then Err(section.error) else LocateInSection(data, section.value)
  }

  lemma HeaderStamp(header: seq<Byte>)
    requires LocateInHeader(header).Ok?
    ensures StampAt(header, LocateInHeader(header).value)
  {
    ScanHits(header, 0, FieldHit);
    assert Hits(header, FieldHit, Scan(header, 0, FieldHit)[0]);
  }

  /** What is located is a timestamp. */
  lemma LocatedIsStamp(data: seq<Byte>)
    requires Locate(data).Ok?
    ensures StampAt(data, Locate(data).value)
  {
    SectionStamp(data, HeaderSection(data).value);
  }

  lemma SectionStamp(data: seq<Byte>, section: Section)
    requires section.start <= section.end <= |data| && LocateInSection(data, section).Ok?
    ensures StampAt(data, LocateInSection(data, section).value)
  {
    var header := data[section.start..section.end];
    HeaderStamp(header);
    StampInSlice(data, section.start, section.end, LocateInHeader(header).value);
  }

  lemma StampInSlice(data: seq<Byte>, start: nat, end: nat, p: nat)
    requires start <= end <= |data| && StampAt(data[start..end], p)
    ensures StampAt(data, start + p)
  {
    var q := start + p;
    forall i | 0 <= i < 19
      ensures StampByte(data, q, i)
    {
      assert StampByte(data[start..end], p, i);
    }
  }

  // ------------------------------------------------- what is located, in full

  /** A header is accepted, with its stamp, exactly if it holds one field. */
  lemma HeaderIff(header: seq<Byte>, stamp: nat)
    ensures LocateInHeader(header) == Ok(stamp) <==> HoldsOneField(header, stamp)
  {
    TokenCount(header);
    FieldCount(header);
    if stamp > 0 { QuotedCount(header, stamp - 1); }
    if LocateInHeader(header) == Ok(stamp) {
      var p: nat, s: nat :| IsOnlyField(header, p, s);
      FieldLength(header, p, s);
    }
  }

  /** What a refused header is refused for. */
  ghost predicate IsHeaderFault(header: seq<Byte>, error: LocateError) {
    if forall p: nat :: !TokenAt(header, p) then error == TokenMissing
    else if forall p: nat :: !IsOnlyToken(header, p) then error == TokenDuplicated
    else if forall p: nat, stamp: nat :: !FieldPattern(header, p, stamp) then error == FieldMissing
    else if forall p: nat, stamp: nat :: !IsOnlyField(header, p, stamp) then error == FieldDuplicated
    else error == TimestampAmbiguous
  }

  lemma HeaderFault(header: seq<Byte>)
    requires LocateInHeader(header).Err?
    ensures IsHeaderFault(header, LocateInHeader(header).error)
  {
    TokenCount(header);
    FieldCount(header);
  }

  /** The literal is first found at `at`. */
  ghost predicate IsFirst(data: seq<Byte>, literal: string, from: nat, at: nat) {
    from <= at && LiteralAt(data, at, literal) && forall i :: from <= i < at ==> !LiteralAt(data, i, literal)
  }

  lemma {:induction false} FindsFirst(data: seq<Byte>, literal: string, from: nat, at: nat)
    requires literal != "" && IsFirst(data, literal, from, at)
    ensures Find(data, literal, from) == Some(at)
    decreases at - from
  {
    if from < at {
      FindsFirst(data, literal, from + 1, at);
    }
  }

  lemma {:induction false} FirstIsFound(data: seq<Byte>, literal: string, from: nat)
    requires literal != "" && Find(data, literal, from).Some?
    ensures IsFirst(data, literal, from, Find(data, literal, from).value)
    decreases |data| - from
  {
    if !LiteralAt(data, from, literal) {
      FirstIsFound(data, literal, from + 1);
    }
  }

  lemma {:induction false} NothingIsFound(data: seq<Byte>, literal: string, from: nat)
    requires literal != ""
    ensures Find(data, literal, from) == None <==> forall i :: from <= i ==> !LiteralAt(data, i, literal)
    decreases |data| - from
  {
    if from + |literal| <= |data| && !LiteralAt(data, from, literal) {
      NothingIsFound(data, literal, from + 1);
    }
  }

  /** The header runs from behind the first `HEADER;` to the first `ENDSEC;` after it. */
  ghost predicate IsHeader(data: seq<Byte>, start: nat, end: nat) {
    start >= 7 && IsFirst(data, "HEADER;", 0, start - 7) && IsFirst(data, "ENDSEC;", start, end)
  }

  lemma HeaderIsInside(data: seq<Byte>, start: nat, end: nat)
    requires IsHeader(data, start, end)
    ensures start <= end <= |data|
  {
  }

  /** The header of the file holds one field, whose stamp is at this offset of the file. */
  ghost predicate FieldLiesAt(data: seq<Byte>, offset: nat) {
    exists start: nat, end: nat, stamp: nat :: IsFieldOffset(data, start, end, stamp, offset)
  }

  ghost predicate IsFieldOffset(data: seq<Byte>, start: nat, end: nat, stamp: nat, offset: nat) {
    IsHeader(data, start, end) && start <= end <= |data| && HoldsOneField(data[start..end], stamp) && offset == start + stamp
  }

  lemma SectionIff(data: seq<Byte>, start: nat, end: nat)
    ensures HeaderSection(data) == Ok(Section(start, end)) <==> IsHeader(data, start, end)
  {
    if IsHeader(data, start, end) {
      FindsFirst(data, "HEADER;", 0, start - 7);
      FindsFirst(data, "ENDSEC;", start, end);
    }
    if HeaderSection(data) == Ok(Section(start, end)) {
      FirstIsFound(data, "HEADER;", 0);
      FirstIsFound(data, "ENDSEC;", start);
    }
  }

  lemma LocatedInSection(data: seq<Byte>, section: Section)
    requires HeaderSection(data) == Ok(section)
    ensures Locate(data) == Shifted(LocateInHeader(data[section.start..section.end]), section.start)
  {
    assert Locate(data) == LocateInSection(data, section);
  }

  lemma LocatedAt(data: seq<Byte>, section: Section, offset: nat)
    requires HeaderSection(data) == Ok(section) && section.start <= offset
    requires LocateInHeader(data[section.start..section.end]) == Ok(offset - section.start)
    ensures Locate(data) == Ok(offset)
  {
    LocatedInSection(data, section);
    ShiftedOk(section.start, offset);
  }

  lemma ShiftedOk(start: nat, offset: nat)
    requires start <= offset
    ensures Shifted(Ok(offset - start), start) == Ok(offset)
  {
  }

  lemma LiesLocated(data: seq<Byte>, offset: nat)
    requires FieldLiesAt(data, offset)
    ensures Locate(data) == Ok(offset)
  {
    var start, end := HeaderOfField(data, offset);
    LocatedByHeader(data, start, end, offset);
  }

  lemma HeaderOfField(data: seq<Byte>, offset: nat) returns (start: nat, end: nat)
    requires FieldLiesAt(data, offset)
    ensures IsHeader(data, start, end) && start <= end <= |data| && start <= offset
    ensures LocateInHeader(data[start..end]) == Ok(offset - start)
  {
    var stamp: nat;
    start, end, stamp :| IsFieldOffset(data, start, end, stamp, offset);
    HeaderIff(data[start..end], stamp);
  }

  lemma LocatedByHeader(data: seq<Byte>, start: nat, end: nat, offset: nat)
    requires IsHeader(data, start, end) && start <= end <= |data| && start <= offset
    requires LocateInHeader(data[start..end]) == Ok(offset - start)
    ensures Locate(data) == Ok(offset)
  {
    SectionIff(data, start, end);
    LocatedAt(data, Section(start, end), offset);
  }

  lemma LocatedLies(data: seq<Byte>)
    requires Locate(data).Ok?
    ensures FieldLiesAt(data, Locate(data).value)
  {
    var Section(start, end) := HeaderSection(data).value;
    LocatedInSection(data, Section(start, end));
    var stamp := LocateInHeader(data[start..end]).value;
    SectionIff(data, start, end);
    HeaderIff(data[start..end], stamp);
    assert IsFieldOffset(data, start, end, stamp, Locate(data).value);
  }

  /** A file is accepted exactly if its header holds one field, and the offset is that of its stamp. */
  lemma LocateIff(data: seq<Byte>, offset: nat)
    ensures Locate(data) == Ok(offset) <==> FieldLiesAt(data, offset)
  {
    if Locate(data) == Ok(offset) {
      LocatedLies(data);
    }
    if FieldLiesAt(data, offset) {
      LiesLocated(data, offset);
    }
  }

  /** What a refused file is refused for: a mark is missing, or the header between the marks has a fault. */
  ghost predicate IsFault(data: seq<Byte>, error: LocateError) {
    if forall i: nat :: !LiteralAt(data, i, "HEADER;") then error == HeaderMissing
    else if forall start: nat, end: nat :: !IsHeader(data, start, end) then error == HeaderUnterminated
    else exists start: nat, end: nat ::
           IsHeader(data, start, end) && start <= end <= |data| && IsHeaderFault(data[start..end], error)
  }

  lemma LocateFault(data: seq<Byte>)
    requires Locate(data).Err?
    ensures IsFault(data, Locate(data).error)
  {
    NothingIsFound(data, "HEADER;", 0);
    forall start: nat, end: nat
      ensures HeaderSection(data) == Ok(Section(start, end)) <==> IsHeader(data, start, end)
    {
      SectionIff(data, start, end);
    }
    if HeaderSection(data).Ok? {
      var Section(start, end) := HeaderSection(data).value;
      FaultInSection(data, Section(start, end));
      SomeHeaderMark(data, start, end);
    }
  }

  lemma FaultInSection(data: seq<Byte>, section: Section)
    requires HeaderSection(data) == Ok(section) && Locate(data).Err?
    ensures IsHeaderFault(data[section.start..section.end], Locate(data).error)
  {
    LocatedInSection(data, section);
    HeaderFault(data[section.start..section.end]);
  }

  lemma SomeHeaderMark(data: seq<Byte>, start: nat, end: nat)
    requires IsHeader(data, start, end)
    ensures exists i: nat :: LiteralAt(data, i, "HEADER;")
  {
    assert LiteralAt(data, start - 7, "HEADER;");
  }

  /** In the file that consists of five parts, the middle one is the header if the marks around it are the first ones. */
  lemma WrittenHeader(before: seq<Byte>, header: seq<Byte>, after: seq<Byte>)
    requires var data := before + Codes("HEADER;") + header + Codes("ENDSEC;") + after;
             && (forall i: nat :: i < |before| ==> !LiteralAt(data, i, "HEADER;"))
             && (forall i: nat :: |before| + 7 <= i < |before| + 7 + |header| ==> !LiteralAt(data, i, "ENDSEC;"))
    ensures var data, start := before + Codes("HEADER;") + header + Codes("ENDSEC;") + after, |before| + 7;
            IsHeader(data, start, start + |header|) && data[start..start + |header|] == header
  {
    var open, close := Codes("HEADER;"), Codes("ENDSEC;");
    var data := before + open + header + close + after;
    MiddleOf(before, open, header, close, after);
    CodesAreLiteral(data, |before|, "HEADER;");
    CodesAreLiteral(data, |before| + 7 + |header|, "ENDSEC;");
  }

  /** A file so written is accepted exactly if its header holds one field. */
  lemma WrittenIffOneField(before: seq<Byte>, header: seq<Byte>, after: seq<Byte>, stamp: nat)
    requires var data := before + Codes("HEADER;") + header + Codes("ENDSEC;") + after;
             && (forall i: nat :: i < |before| ==> !LiteralAt(data, i, "HEADER;"))
             && (forall i: nat :: |before| + 7 <= i < |before| + 7 + |header| ==> !LiteralAt(data, i, "ENDSEC;"))
    ensures var data := before + Codes("HEADER;") + header + Codes("ENDSEC;") + after;
            FieldLiesAt(data, |before| + 7 + stamp) <==> HoldsOneField(header, stamp)
  {
    var data := before + Codes("HEADER;") + header + Codes("ENDSEC;") + after;
    WrittenHeader(before, header, after);
    LiesInHeader(data, |before| + 7, |before| + 7 + |header|, stamp);
  }

  lemma LiesInHeader(data: seq<Byte>, start: nat, end: nat, stamp: nat)
    requires IsHeader(data, start, end) && start <= end <= |data|
    ensures FieldLiesAt(data, start + stamp) <==> HoldsOneField(data[start..end], stamp)
  {
    if HoldsOneField(data[start..end], stamp) {
      assert IsFieldOffset(data, start, end, stamp, start + stamp);
    }
    if FieldLiesAt(data, start + stamp) {
      var s: nat, e: nat, t: nat :| IsFieldOffset(data, s, e, t, start + stamp);
      OneHeader(data, start, end, s, e);
    }
  }

  lemma OneHeader(data: seq<Byte>, start: nat, end: nat, s: nat, e: nat)
    requires IsHeader(data, start, end) && IsHeader(data, s, e)
    ensures s == start && e == end
  {
    SectionIff(data, start, end);
    SectionIff(data, s, e);
  }

  lemma MiddleOf<T>(a: seq<T>, b: seq<T>, c: seq<T>, d: seq<T>, e: seq<T>)
    ensures var s := a + b + c + d + e;
            && s[|a|..|a| + |b|] == b && s[|a| + |b|..|a| + |b| + |c|] == c
            && s[|a| + |b| + |c|..|a| + |b| + |c| + |d|] == d
  {
  }

  lemma CodesAreLiteral(data: seq<Byte>, p: nat, literal: string)
    requires forall i :: 0 <= i < |literal| ==> literal[i] as int < 128
    requires p + |literal| <= |data| && data[p..p + |literal|] == Codes(literal)
    ensures LiteralAt(data, p, literal)
  {
    forall i | 0 <= i < |literal|
      ensures data[p + i] == literal[i] as int
    {
      assert data[p + i] == data[p..p + |literal|][i];
    }
  }
}
