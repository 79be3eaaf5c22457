/** The CalculiX subset: directives in a fixed order, their parameters, and their data lines. */
module CalculixDeck {
  import opened Text
  import opened Identifiers
  import opened SectionGrammar

  // --------------------------------------------------------- line patterns

  function Digits(text: string): (n: nat)
    ensures n <= |text| && (forall i :: 0 <= i < n ==> IsDigit(text[i])) && (n < |text| ==> !IsDigit(text[n]))
  {
    if text != "" && IsDigit(text[0]) then 1 + Digits(text[1..]) else 0
  }

  function DropSign(text: string): string {
    if text != "" && (text[0] == '-' || text[0] == '+') then text[1..] else text
  }

  /** `[-+]?[0-9]+` */
  predicate IsInteger(text: string) {
    var body := DropSign(text);
    body != "" && Digits(body) == |body|
  }

  /** `(?:[Ee][-+]?[0-9]+)?` */
  predicate IsExponent(text: string) {
    text == "" || ((text[0] == 'E' || text[0] == 'e') && IsInteger(text[1..]))
  }

  /** The length of `(?:\.[0-9]*)?` */
  function FractionLength(text: string): (n: nat)
    ensures n <= |text|
  {
    if text != "" && text[0] == '.' then 1 + Digits(text[1..]) else 0
  }

  /** `[-+]?(?:[0-9]+(?:\.[0-9]*)?|\.[0-9]+)(?:[Ee][-+]?[0-9]+)?` */
  predicate IsNumber(text: string) {
    IsUnsigned(DropSign(text))
  }

  predicate IsUnsigned(body: string) {
    var rest := body[Digits(body)..];
    (Digits(body) > 0 || FractionLength(rest) > 1) && IsExponent(rest[FractionLength(rest)..])
  }

  predicate AllDigits(text: string) {
    forall i :: 0 <= i < |text| ==> IsDigit(text[i])
  }

  predicate IsSign(text: string) { text == "" || text == "+" || text == "-" }

  ghost predicate HasIntegerShape(text: string, sign: string, digits: string) {
    IsSign(sign) && digits != "" && AllDigits(digits) && text == sign + digits
  }

  /** The text is an integer exactly if it is an optional sign and digits. */
  lemma IntegerIff(text: string)
    ensures IsInteger(text) <==> exists sign, digits :: HasIntegerShape(text, sign, digits)
  {
    var body := DropSign(text);
    if IsInteger(text) {
      var sign := SignParts(text);
      assert HasIntegerShape(text, sign, body);
    }
    if sign, digits :| HasIntegerShape(text, sign, digits) {
      SignOf(text, sign, digits);
      DigitsOf(digits, "");
      assert digits + "" == digits;
    }
  }

  lemma SignOf(text: string, sign: string, body: string)
    requires IsSign(sign) && text == sign + body && body != "" && body[0] != '+' && body[0] != '-'
    ensures DropSign(text) == body
  {
  }

  lemma DigitsOf(digits: string, rest: string)
    requires AllDigits(digits) && (rest == "" || !IsDigit(rest[0]))
    ensures Digits(digits + rest) == |digits|
  {
    var text := digits + rest;
    assert forall i :: 0 <= i < |digits| ==> text[i] == digits[i];
    assert |digits| < |text| ==> text[|digits|] == rest[0];
  }

  function PointAnd(fraction: Option<string>): string {
    if fraction.None? then "" else "." + fraction.value
  }

  function Unsigned(whole: string, fraction: Option<string>, exponent: string): string {
    whole + (PointAnd(fraction) + exponent)
  }

  predicate AreNumberParts(whole: string, fraction: Option<string>, exponent: string) {
    && AllDigits(whole) && (fraction.Some? ==> AllDigits(fraction.value))
    && (whole != "" || (fraction.Some? && fraction.value != "")) && IsExponent(exponent)
  }

  ghost predicate HasNumberShape(text: string, sign: string, whole: string, fraction: Option<string>, exponent: string) {
    IsSign(sign) && AreNumberParts(whole, fraction, exponent) && text == sign + Unsigned(whole, fraction, exponent)
  }

  /** The text is a number exactly if it is an optional sign, digits on one side of an optional point at least,
      and an optional exponent. */
  lemma NumberIff(text: string)
    ensures IsNumber(text)
            <==> exists sign, whole, fraction, exponent :: HasNumberShape(text, sign, whole, fraction, exponent)
  {
    if IsNumber(text) {
      var sign, whole, fraction, exponent := NumberParts(text);
    }
    if sign, whole, fraction, exponent :| HasNumberShape(text, sign, whole, fraction, exponent) {
      NumberOf(text, sign, whole, fraction, exponent);
    }
  }

  lemma FractionParts(rest: string) returns (fraction: Option<string>)
    ensures rest == PointAnd(fraction) + rest[FractionLength(rest)..] && FractionLength(rest) == |PointAnd(fraction)|
    ensures fraction.Some? ==> AllDigits(fraction.value)
  {
    if rest != "" && rest[0] == '.' {
      fraction := Some(rest[1..FractionLength(rest)]);
      assert rest[..1] == ".";
    } else {
      fraction := None;
    }
  }

  lemma FractionOf(fraction: Option<string>, exponent: string)
    requires fraction.Some? ==> AllDigits(fraction.value)
    requires exponent == "" || (exponent[0] != '.' && !IsDigit(exponent[0]))
    ensures var rest := PointAnd(fraction) + exponent;
            FractionLength(rest) == |PointAnd(fraction)| && rest[FractionLength(rest)..] == exponent
            && (rest == "" || !IsDigit(rest[0]))
  {
    var rest := PointAnd(fraction) + exponent;
    if fraction.Some? {
      DigitsOf(fraction.value, exponent);
      assert rest[1..] == fraction.value + exponent;
    } else {
      assert rest == exponent;
    }
  }

  lemma SignParts(text: string) returns (sign: string)
    ensures IsSign(sign) && text == sign + DropSign(text)
  {
    sign := text[..|text| - |DropSign(text)|];
  }

  lemma NumberParts(text: string) returns (sign: string, whole: string, fraction: Option<string>, exponent: string)
    requires IsNumber(text)
    ensures HasNumberShape(text, sign, whole, fraction, exponent)
  {
    sign := SignParts(text);
    whole, fraction, exponent := UnsignedParts(DropSign(text));
  }

  lemma UnsignedParts(body: string) returns (whole: string, fraction: Option<string>, exponent: string)
    requires IsUnsigned(body)
    ensures AreNumberParts(whole, fraction, exponent) && body == Unsigned(whole, fraction, exponent)
  {
    var rest := body[Digits(body)..];
    whole := LeadingDigits(body);
    fraction := FractionParts(rest);
    exponent := rest[FractionLength(rest)..];
    assert Unsigned(whole, fraction, exponent) == whole + rest;
  }

  lemma LeadingDigits(body: string) returns (whole: string)
    ensures AllDigits(whole) && |whole| == Digits(body) && body == whole + body[Digits(body)..]
  {
    whole := body[..Digits(body)];
  }

  lemma NumberOf(text: string, sign: string, whole: string, fraction: Option<string>, exponent: string)
    requires HasNumberShape(text, sign, whole, fraction, exponent)
    ensures IsNumber(text)
  {
    UnsignedOf(whole, fraction, exponent);
    SignOf(text, sign, Unsigned(whole, fraction, exponent));
  }

  lemma UnsignedOf(whole: string, fraction: Option<string>, exponent: string)
    requires AreNumberParts(whole, fraction, exponent)
    ensures var body := Unsigned(whole, fraction, exponent); IsUnsigned(body) && body != "" && body[0] != '+' && body[0] != '-'
  {
    var rest := PointAnd(fraction) + exponent;
    FractionOf(fraction, exponent);
    DigitsOf(whole, rest);
    UnsignedStart(whole, fraction, rest);
    assert (whole + rest)[|whole|..] == rest;
  }

  lemma UnsignedStart(whole: string, fraction: Option<string>, rest: string)
    requires AllDigits(whole) && (whole != "" || (fraction.Some? && PointAnd(fraction) <= rest))
    ensures var body := whole + rest; body != "" && body[0] != '+' && body[0] != '-'
  {
    var body := whole + rest;
    assert if whole != "" then body[0] == whole[0] && IsDigit(whole[0]) else body[0] == rest[0] == '.';
  }

  /** `[A-Za-z][A-Za-z0-9_.:-]*` */
  predicate IsName(text: string) {
    text != "" && IsLetter(text[0]) && forall i :: 0 <= i < |text| ==> IsSafeChar(text[i])
  }

  predicate IsSetOrNode(text: string) { IsName(text) || IsInteger(text) }

  /** `[\x20-\x7e]{1,120}` */
  predicate IsHeading(line: string) {
    1 <= |line| <= 120 && forall i :: 0 <= i < |line| ==> 0x20 <= line[i] as int <= 0x7e
  }

  // ------------------------------------------------------------- sections

  datatype Section = Heading | Node | Element | Material | Elastic | Step | Static | Boundary | Cload | EndStep

  const SEQUENCE: seq<Section> := [Heading, Node, Element, Material, Elastic, Step, Static, Boundary, Cload, EndStep]

  function DirectiveName(section: Section): string {
    match section
    case Heading => "HEADING"
    case Node => "NODE"
    case Element => "ELEMENT"
    case Material => "MATERIAL"
    case Elastic => "ELASTIC"
    case Step => "STEP"
    case Static => "STATIC"
    case Boundary => "BOUNDARY"
    case Cload => "CLOAD"
    case EndStep => "END STEP"
  }

  predicate DataLineFits(section: Section, line: string) {
    var cells := Split(line, ',');
    match section
    case Heading => IsHeading(line)
    case Node => |cells| == 4 && IsInteger(cells[0]) && IsNumber(cells[1]) && IsNumber(cells[2]) && IsNumber(cells[3])
    case Element => |cells| == 5 && forall i :: 0 <= i < 5 ==> IsInteger(cells[i])
    case Elastic => |cells| == 2 && IsNumber(cells[0]) && IsNumber(cells[1])
    case Boundary =>
      |cells| == 4 && IsSetOrNode(cells[0]) && IsInteger(cells[1]) && IsInteger(cells[2]) && IsNumber(cells[3])
    case Cload => |cells| == 3 && IsSetOrNode(cells[0]) && IsInteger(cells[1]) && IsNumber(cells[2])
    case Static => 1 <= |cells| <= 4 && forall i :: 0 <= i < |cells| ==> IsNumber(cells[i])
    case _ => false
  }

  /** How many data lines a section may have. */
  predicate WithinBounds(section: Section, dataLines: nat) {
    match section
    case Heading => dataLines == 1
    case Node => dataLines >= 4
    case Element => dataLines >= 1
    case Material => dataLines == 0
    case Elastic => dataLines == 1
    case Step => dataLines == 0
    case Static => dataLines <= 1
    case Boundary => dataLines >= 1
    case Cload => dataLines >= 1
    case EndStep => dataLines == 0
  }

  /** A second heading line is refused at once, not when the section ends. */
  predicate RefusedAtOnce(section: Section, priorDataLines: nat) {
    section.Heading? && priorDataLines > 0
  }

  // ----------------------------------------------------------- parameters

  function LowerAscii(c: char): char {
    if 'A' <= c <= 'Z' then (c as int + 32) as char else c
  }

  predicate EqualsIgnoringCase(text: string, lower: string) {
    |text| == |lower| && forall i :: 0 <= i < |text| ==> LowerAscii(text[i]) == lower[i]
  }

  datatype Category = NodeSet | ElementSet | MaterialName

  function Key(category: Category): string {
    match category case NodeSet => "nset" case ElementSet => "elset" case MaterialName => "name"
  }

  /** What follows `KEY=`, if the field starts so. */
  function ValueOf(field: string, key: string): Option<string> {
    if |field| > |key| && EqualsIgnoringCase(field[..|key|], key) && field[|key|] == '=' then Some(field[|key| + 1..]) else None
  }

  /** The match of `^KEY=([A-Za-z][A-Za-z0-9_.:-]*)$`, ignoring case. */
  predicate IsNamed(field: string, category: Category) {
    ValueOf(field, Key(category)).Some? && IsName(ValueOf(field, Key(category)).value)
  }

  predicate IsSolidType(field: string) {
    EqualsIgnoringCase(field, "type=c3d4")
  }

  predicate FieldAllowed(section: Section, field: string) {
    match section
    case Node => IsNamed(field, NodeSet)
    case Element => IsSolidType(field) || IsNamed(field, ElementSet)
    case Material => IsNamed(field, MaterialName)
    case _ => false
  }

  predicate HasField(fields: seq<string>, key: string) {
    exists i :: 0 <= i < |fields| && ValueOf(fields[i], key).Some?
  }

  predicate RequiredPresent(section: Section, fields: seq<string>) {
    match section
    case Node => HasField(fields, "nset")
    case Element => (exists i :: 0 <= i < |fields| && IsSolidType(fields[i])) && HasField(fields, "elset")
    case Material => HasField(fields, "name")
    case _ => true
  }

  predicate FieldsFit(section: Section, fields: seq<string>) {
    (forall i :: 0 <= i < |fields| ==> FieldAllowed(section, fields[i])) && RequiredPresent(section, fields)
  }

  /** The category of `/^(NSET|ELSET|NAME)=([A-Za-z][A-Za-z0-9_.:-]*)$/i`. */
  function CategoryOf(field: string): Option<Category> {
    if IsNamed(field, NodeSet) then Some(NodeSet)
    else if IsNamed(field, ElementSet) then Some(ElementSet)
    else if IsNamed(field, MaterialName) then Some(MaterialName)
    else None
  }

  function NameOf(field: string): string
    requires CategoryOf(field).Some?
  {
    ValueOf(field, Key(CategoryOf(field).value)).value
  }

  predicate NameIsSafe(field: string) {
    CategoryOf(field).Some? ==> SafeId(NameOf(field))
  }

  predicate NamesAreSafe(fields: seq<string>) {
    forall i :: 0 <= i < |fields| ==> NameIsSafe(fields[i])
  }

  /** The pattern of a name leaves `safeId` its length to refuse. */
  lemma SafeIffShort(field: string)
    requires CategoryOf(field).Some?
    ensures NameIsSafe(field) <==> |NameOf(field)| <= 256
  {
  }

  // ------------------------------------------------------------ directives

  predicate IsDirective(line: string) {
    line != "" && line[0] == '*'
  }

  function TrimAll(fields: seq<string>): (r: seq<string>)
    ensures |r| == |fields|
  {
    seq(|fields|, i requires 0 <= i < |fields| => Trim(fields[i]))
  }

  function FieldsOf(line: string): (r: seq<string>)
    requires IsDirective(line)
    ensures |r| >= 1
  {
    TrimAll(Split(line[1..], ','))
  }

  predicate DirectiveFits(i: nat, line: string, upper: string -> string) {
    && i < |SEQUENCE| && IsDirective(line) && upper(FieldsOf(line)[0]) == DirectiveName(SEQUENCE[i])
    && FieldsFit(SEQUENCE[i], FieldsOf(line)[1..]) && NamesAreSafe(FieldsOf(line)[1..])
  }

  /** The grammar of the subset; `upper` is the conversion to upper case. */
  function DeckRules(upper: string -> string): Rules<string> {
    Rules(
      line => IsDirective(line),
      (i: nat, line: string) => DirectiveFits(i, line, upper),
      (i: nat, line: string) => i < |SEQUENCE| && DataLineFits(SEQUENCE[i], line),
      (i: nat, n: nat) => i < |SEQUENCE| && WithinBounds(SEQUENCE[i], n),
      (i: nat, prior: nat) => i < |SEQUENCE| && !RefusedAtOnce(SEQUENCE[i], prior))
  }

  lemma RulesAreCoherent(upper: string -> string)
    ensures Coherent(DeckRules(upper))
  {
  }

  /** What the rules say of a data line. */
  lemma AdvanceData(place: Place, line: string, upper: string -> string)
    requires !IsDirective(line)
    ensures Advance(DeckRules(upper), place, line)
         == if 0 < place.ordinal <= |SEQUENCE| && DataLineFits(SEQUENCE[place.ordinal - 1], line)
               && !RefusedAtOnce(SEQUENCE[place.ordinal - 1], place.data)
            then Some(Place(place.ordinal, place.data + 1)) else None
  {
  }

  /** What the rules say of a directive. */
  lemma AdvanceDirective(place: Place, line: string, upper: string -> string)
    requires IsDirective(line) && place.ordinal <= |SEQUENCE|
    ensures Advance(DeckRules(upper), place, line)
         == if (place.ordinal == 0 || WithinBounds(SEQUENCE[place.ordinal - 1], place.data))
               && DirectiveFits(place.ordinal, line, upper)
            then Some(Place(place.ordinal + 1, 0)) else None
  {
  }

  predicate IsComment(line: string) {
    line == "" || (|line| >= 2 && line[0] == '*' && line[1] == '*')
  }

  /** The trimmed lines that are neither empty nor comments. */
  function Relevant(lines: seq<string>): seq<string> {
    if lines == [] then []
    else
      var line := Trim(lines[|lines| - 1]);
      Relevant(lines[..|lines| - 1]) + if IsComment(line) then [] else [line]
  }

  /** Ten sections in the fixed order. */
  ghost predicate IsCalculixDeck(text: string, upper: string -> string) {
    Accepts(DeckRules(upper), |SEQUENCE|, Relevant(Split(text, '\n')))
  }

  // -------------------------------------------------------------- symbols

  function SymbolId(field: string): string
    requires CategoryOf(field).Some?
  {
    Key(CategoryOf(field).value) + ":" + NameOf(field)
  }

  function IdsOfFields(fields: seq<string>): seq<string> {
    if fields == [] then []
    else
      var last := fields[|fields| - 1];
      IdsOfFields(fields[..|fields| - 1]) + if CategoryOf(last).Some? then [SymbolId(last)] else []
  }

  /** The ids that the directives name, in the order of the text, repetitions included. */
  function NamedIds(lines: seq<string>): seq<string> {
    if lines == [] then []
    else
      var last := lines[|lines| - 1];
      NamedIds(lines[..|lines| - 1]) + if IsDirective(last) then IdsOfFields(FieldsOf(last)[1..]) else []
  }

  /** Each element where it occurs first. */
  function FirstOccurrences(ids: seq<string>): seq<string> {
    if ids == [] then []
    else
      var init, last := FirstOccurrences(ids[..|ids| - 1]), ids[|ids| - 1];
      if last in init then init else init + [last]
  }

  /** The symbols are the named ids, each listed once. */
  lemma {:induction false} EachIdOnce(ids: seq<string>)
    ensures forall id :: id in FirstOccurrences(ids) <==> id in ids
    ensures forall i, j :: 0 <= i < j < |FirstOccurrences(ids)| ==> FirstOccurrences(ids)[i] != FirstOccurrences(ids)[j]
  {
    if ids != [] {
      EachIdOnce(ids[..|ids| - 1]);
      assert ids == ids[..|ids| - 1] + [ids[|ids| - 1]];
    }
  }

  lemma FirstOccurrencesNext(ids: seq<string>, id: string)
    ensures FirstOccurrences(ids + [id])
         == if id in FirstOccurrences(ids) then FirstOccurrences(ids) else FirstOccurrences(ids) + [id]
  {
    assert (ids + [id])[..|ids|] == ids;
  }

  lemma IdsNext(fields: seq<string>, i: nat, before: seq<string>)
    requires i < |fields|
    ensures var ids := FirstOccurrences(before + IdsOfFields(fields[..i]));
            FirstOccurrences(before + IdsOfFields(fields[..i + 1]))
            == WithField(ids, fields[i])
  {
    var ids := IdsOfFields(fields[..i]);
    IdsOfNextField(fields, i);
    if CategoryOf(fields[i]).Some? {
      FirstOccurrencesNext(before + ids, SymbolId(fields[i]));
      Regroup(before, ids, [SymbolId(fields[i])]);
    }
  }

  lemma IdsOfNextField(fields: seq<string>, i: nat)
    requires i < |fields|
    ensures IdsOfFields(fields[..i + 1])
         == if CategoryOf(fields[i]).Some? then IdsOfFields(fields[..i]) + [SymbolId(fields[i])] else IdsOfFields(fields[..i])
  {
    assert fields[..i + 1][..i] == fields[..i];
    assert IdsOfFields(fields[..i]) + [] == IdsOfFields(fields[..i]);
  }

  /** The symbols after one more field, which adds at most one. */
  function WithField(symbols: seq<string>, field: string): seq<string> {
    if CategoryOf(field).None? || SymbolId(field) in symbols then symbols else symbols + [SymbolId(field)]
  }

  method AddSymbol(field: string, symbols: seq<string>) returns (safe: bool, more: seq<string>)
    ensures safe <==> NameIsSafe(field)
    ensures safe ==> more == WithField(symbols, field)
  {
    if CategoryOf(field).None? { return true, symbols; }
    if !SafeId(NameOf(field)) { return false, symbols; }
    var id := SymbolId(field);
    if id in symbols { return true, symbols; }
    return true, symbols + [id];
  }

  lemma SafeNext(fields: seq<string>, i: nat)
    requires i < |fields|
    ensures NamesAreSafe(fields[..i + 1]) <==> NamesAreSafe(fields[..i]) && NameIsSafe(fields[i])
    ensures NamesAreSafe(fields) ==> NamesAreSafe(fields[..i + 1])
  {
    assert fields[..i + 1] == fields[..i] + [fields[i]];
    assert forall k :: 0 <= k < i ==> fields[..i + 1][k] == fields[..i][k];
    assert fields[..i + 1][i] == fields[i];
  }

  method AddSymbols(fields: seq<string>, symbols: seq<string>, ghost before: seq<string>)
    returns (safe: bool, more: seq<string>)
    requires symbols == FirstOccurrences(before)
    ensures safe <==> NamesAreSafe(fields)
    ensures safe ==> more == FirstOccurrences(before + IdsOfFields(fields))
  {
    more := symbols;
    assert before + [] == before;
    for i := 0 to |fields|
      invariant NamesAreSafe(fields[..i])
      invariant more == FirstOccurrences(before + IdsOfFields(fields[..i]))
    {
      IdsNext(fields, i, before);
      SafeNext(fields, i);
      safe, more := AddSymbol(fields[i], more);
      if !safe { return; }
    }
    assert fields[..|fields|] == fields;
    safe := true;
  }

  // --------------------------------------------------------------- a node set

  lemma NodeSectionNames(line: string, upper: string -> string)
    requires DirectiveFits(1, line, upper)
    ensures IdsOfFields(FieldsOf(line)[1..]) != []
  {
    var fields := FieldsOf(line)[1..];
    assert SEQUENCE[1] == Node;
    var i :| 0 <= i < |fields| && ValueOf(fields[i], "nset").Some?;
    assert FieldAllowed(Node, fields[i]);
    assert CategoryOf(fields[i]).Some?;
    SomeId(fields, i);
  }

  lemma {:induction false} SomeId(fields: seq<string>, i: nat)
    requires i < |fields| && CategoryOf(fields[i]).Some?
    ensures IdsOfFields(fields) != []
  {
    if i < |fields| - 1 {
      SomeId(fields[..|fields| - 1], i);
    }
  }

  lemma {:induction false} NamedByLine(lines: seq<string>, k: nat)
    requires k < |lines| && IsDirective(lines[k]) && IdsOfFields(FieldsOf(lines[k])[1..]) != []
    ensures NamedIds(lines) != []
  {
    if k < |lines| - 1 {
      NamedByLine(lines[..|lines| - 1], k);
    }
  }

  /** A deck names a node set, so the final demand for a named set is never what refuses it. */
  lemma DeckNamesASet(lines: seq<string>, upper: string -> string)
    requires Accepts(DeckRules(upper), |SEQUENCE|, lines)
    ensures NamedIds(lines) != []
  {
    var sections :| IsDeck(DeckRules(upper), |SEQUENCE|, sections, lines);
    assert Complete(DeckRules(upper), 1, sections[1]);
    var head := sections[1][0];
    NodeSectionNames(head, upper);
    var k := InFlattened(sections, 1, 0);
    NamedByLine(lines, k);
  }

  lemma {:induction false} InFlattened<L>(sections: seq<seq<L>>, i: nat, j: nat) returns (k: nat)
    requires i < |sections| && j < |sections[i]|
    ensures k < |Flatten(sections)| && Flatten(sections)[k] == sections[i][j]
  {
    if i == |sections| - 1 {
      k := |Flatten(sections[..i])| + j;
    } else {
      k := InFlattened(sections[..|sections| - 1], i, j);
    }
  }

  // ------------------------------------------------------------ the parser

  function SectionNamed(directive: string): (r: Option<Section>)
    ensures r.Some? ==> DirectiveName(r.value) == directive
    ensures r.None? ==> forall section :: DirectiveName(section) != directive
  {
    if directive == DirectiveName(Heading) then Some(Heading)
    else if directive == DirectiveName(Node) then Some(Node)
    else if directive == DirectiveName(Element) then Some(Element)
    else if directive == DirectiveName(Material) then Some(Material)
    else if directive == DirectiveName(Elastic) then Some(Elastic)
    else if directive == DirectiveName(Step) then Some(Step)
    else if directive == DirectiveName(Static) then Some(Static)
    else if directive == DirectiveName(Boundary) then Some(Boundary)
    else if directive == DirectiveName(Cload) then Some(Cload)
    else if directive == DirectiveName(EndStep) then Some(EndStep)
    else None
  }

  /** The variables of the parser. */
  datatype Progress = Progress(activeDirective: Option<Section>, activeDataLines: nat, directiveOrdinal: nat, symbols: seq<string>)

  function PlaceOf(progress: Progress): Place {
    Place(progress.directiveOrdinal, progress.activeDataLines)
  }

  /** The active directive is the last of the directives read. */
  predicate IsConsistent(progress: Progress) {
    && progress.directiveOrdinal <= |SEQUENCE|
    && progress.activeDirective == if progress.directiveOrdinal == 0 then None else Some(SEQUENCE[progress.directiveOrdinal - 1])
  }

  predicate Tracks(progress: Progress, lines: seq<string>, upper: string -> string) {
    && IsConsistent(progress) && Reach(DeckRules(upper), lines) == Some(PlaceOf(progress))
    && progress.symbols == FirstOccurrences(NamedIds(lines))
  }

  method VisitData(line: string, progress: Progress, ghost upper: string -> string) returns (accepted: bool)
    requires !IsDirective(line) && IsConsistent(progress)
    ensures Advance(DeckRules(upper), PlaceOf(progress), line)
         == if accepted then Some(Place(progress.directiveOrdinal, progress.activeDataLines + 1)) else None
  {
    AdvanceData(PlaceOf(progress), line, upper);
    if progress.activeDirective.None? { return false; }
    return DataLineFits(progress.activeDirective.value, line)
           && !RefusedAtOnce(progress.activeDirective.value, progress.activeDataLines);
  }

  method VisitDirective(line: string, progress: Progress, upper: string -> string, ghost before: seq<string>)
    returns (directive: Option<Section>, more: seq<string>)
    requires IsDirective(line) && IsConsistent(progress) && progress.symbols == FirstOccurrences(before)
    ensures Advance(DeckRules(upper), PlaceOf(progress), line)
         == if directive.Some? then Some(Place(progress.directiveOrdinal + 1, 0)) else None
    ensures directive.Some? ==>
      progress.directiveOrdinal < |SEQUENCE| && directive.value == SEQUENCE[progress.directiveOrdinal]
    ensures directive.Some? ==> more == FirstOccurrences(before + IdsOfFields(FieldsOf(line)[1..]))
  {
    AdvanceDirective(PlaceOf(progress), line, upper);
    var fields := FieldsOf(line);
    directive, more := SectionNamed(upper(fields[0])), progress.symbols;
    if directive.None? { return; }
    if progress.activeDirective.Some? && !WithinBounds(progress.activeDirective.value, progress.activeDataLines) {
      return None, more;
    }
    if progress.directiveOrdinal == |SEQUENCE| || directive.value != SEQUENCE[progress.directiveOrdinal] {
      NameDecides(directive.value, progress.directiveOrdinal);
      return None, more;
    }
    if !FieldsFit(directive.value, fields[1..]) { return None, more; }
    var safe;
    safe, more := AddSymbols(fields[1..], progress.symbols, before);
    if !safe { return None, more; }
  }

  lemma TracksData(progress: Progress, line: string, upper: string -> string, lines: seq<string>)
    requires Tracks(progress, lines, upper) && !IsDirective(line)
    requires Advance(DeckRules(upper), PlaceOf(progress), line)
          == Some(Place(progress.directiveOrdinal, progress.activeDataLines + 1))
    ensures Tracks(progress.(activeDataLines := progress.activeDataLines + 1), lines + [line], upper)
  {
    ReachNext(DeckRules(upper), lines, line);
    NamedUnchanged(lines, line);
  }

  lemma NamedUnchanged(lines: seq<string>, line: string)
    requires !IsDirective(line)
    ensures NamedIds(lines + [line]) == NamedIds(lines)
  {
    NamedNext(lines, line);
    assert NamedIds(lines) + [] == NamedIds(lines);
  }

  lemma TracksDirective(progress: Progress, line: string, upper: string -> string, lines: seq<string>, more: seq<string>)
    requires Tracks(progress, lines, upper) && IsDirective(line) && progress.directiveOrdinal < |SEQUENCE|
    requires Advance(DeckRules(upper), PlaceOf(progress), line) == Some(Place(progress.directiveOrdinal + 1, 0))
    requires more == FirstOccurrences(NamedIds(lines) + IdsOfFields(FieldsOf(line)[1..]))
    ensures Tracks(Progress(Some(SEQUENCE[progress.directiveOrdinal]), 0, progress.directiveOrdinal + 1, more),
                   lines + [line], upper)
  {
    ReachNext(DeckRules(upper), lines, line);
    NamedNext(lines, line);
  }

  method VisitLine(line: string, progress: Progress, upper: string -> string, ghost lines: seq<string>)
    returns (r: Option<Progress>)
    requires Tracks(progress, lines, upper)
    ensures r.Some? ==> Tracks(r.value, lines + [line], upper)
    ensures r.None? ==> Reach(DeckRules(upper), lines + [line]).None?
  {
    ReachNext(DeckRules(upper), lines, line);
    if !IsDirective(line) {
      var accepted := VisitData(line, progress, upper);
      if !accepted { return None; }
      TracksData(progress, line, upper, lines);
      return Some(progress.(activeDataLines := progress.activeDataLines + 1));
    }
    var directive, more := VisitDirective(line, progress, upper, NamedIds(lines));
    if directive.None? { return None; }
    TracksDirective(progress, line, upper, lines, more);
    return Some(Progress(directive, 0, progress.directiveOrdinal + 1, more));
  }

  lemma NameDecides(section: Section, i: nat)
    requires i == |SEQUENCE| || (i < |SEQUENCE| && section != SEQUENCE[i])
    ensures i < |SEQUENCE| ==> DirectiveName(section) != DirectiveName(SEQUENCE[i])
  {
  }

  lemma RelevantNext(raws: seq<string>, i: nat)
    requires i < |raws|
    ensures Relevant(raws[..i + 1]) == Relevant(raws[..i]) + if IsComment(Trim(raws[i])) then [] else [Trim(raws[i])]
  {
    assert raws[..i + 1][..i] == raws[..i];
  }

  lemma {:induction false} RelevantAppend(a: seq<string>, b: seq<string>)
    ensures Relevant(a + b) == Relevant(a) + Relevant(b)
    decreases |b|
  {
    if b == [] {
      assert a + b == a;
    } else {
      RelevantAppend(a, b[..|b| - 1]);
      assert (a + b)[..|a + b| - 1] == a + b[..|b| - 1];
    }
  }

  lemma {:induction false} StaysRefused<L>(r: Rules<L>, a: seq<L>, b: seq<L>)
    requires Reach(r, a).None?
    ensures Reach(r, a + b).None?
    decreases |b|
  {
    if b == [] {
      assert a + b == a;
    } else {
      StaysRefused(r, a, b[..|b| - 1]);
      assert (a + b)[..|a + b| - 1] == a + b[..|b| - 1];
    }
  }

  /** A refused line refuses the text. */
  lemma Refused(text: string, i: nat, upper: string -> string)
    requires i < |Split(text, '\n')| && Reach(DeckRules(upper), Relevant(Split(text, '\n')[..i + 1])).None?
    ensures !IsCalculixDeck(text, upper)
  {
    var raws := Split(text, '\n');
    assert raws == raws[..i + 1] + raws[i + 1..];
    RelevantAppend(raws[..i + 1], raws[i + 1..]);
    StaysRefused(DeckRules(upper), Relevant(raws[..i + 1]), Relevant(raws[i + 1..]));
    RulesAreCoherent(upper);
    RecognisesIffAccepts(DeckRules(upper), |SEQUENCE|, Relevant(raws));
  }

  lemma NamedNext(lines: seq<string>, line: string)
    ensures NamedIds(lines + [line]) == NamedIds(lines) + if IsDirective(line) then IdsOfFields(FieldsOf(line)[1..]) else []
  {
    assert (lines + [line])[..|lines|] == lines;
  }

  lemma NeedsNoSet(progress: Progress, lines: seq<string>, upper: string -> string)
    requires Tracks(progress, lines, upper) && Accepts(DeckRules(upper), |SEQUENCE|, lines)
    ensures progress.symbols != []
  {
    DeckNamesASet(lines, upper);
    EachIdOnce(NamedIds(lines));
    assert NamedIds(lines)[0] in NamedIds(lines);
  }

  lemma EndDecides(progress: Progress, lines: seq<string>, upper: string -> string)
    requires Tracks(progress, lines, upper)
    ensures Accepts(DeckRules(upper), |SEQUENCE|, lines)
            <==> && progress.directiveOrdinal == |SEQUENCE|
                 && WithinBounds(progress.activeDirective.value, progress.activeDataLines)
  {
    RulesAreCoherent(upper);
    RecognisesIffAccepts(DeckRules(upper), |SEQUENCE|, lines);
  }

  /** Accepts exactly the decks; the final demand for a named set never refuses one. */
  method ParseCalculix(text: string, upper: string -> string) returns (symbols: Option<seq<string>>)
    ensures symbols.Some? <==> IsCalculixDeck(text, upper)
    ensures symbols.Some? ==> symbols.value == FirstOccurrences(NamedIds(Relevant(Split(text, '\n'))))
  {
    var raws := Split(text, '\n');
    var progress := Progress(None, 0, 0, []);
    for i := 0 to |raws|
      invariant Tracks(progress, Relevant(raws[..i]), upper)
    {
      var line := Trim(raws[i]);
      RelevantNext(raws, i);
      if IsComment(line) {
        assert Relevant(raws[..i]) + [] == Relevant(raws[..i]);
        continue;
      }
      var next := VisitLine(line, progress, upper, Relevant(raws[..i]));
      if next.None? {
        Refused(text, i, upper);
        return None;
      }
      progress := next.value;
    }
    assert raws[..|raws|] == raws;
    EndDecides(progress, Relevant(raws), upper);
    if progress.activeDirective.Some? && !WithinBounds(progress.activeDirective.value, progress.activeDataLines) { return None; }
    if progress.directiveOrdinal != |SEQUENCE| { return None; }
    NeedsNoSet(progress, Relevant(raws), upper);
    if |progress.symbols| == 0 {
      // The refusal for want of a named set or material stands here.
      assert false;
    }
    return Some(progress.symbols);
  }
}
