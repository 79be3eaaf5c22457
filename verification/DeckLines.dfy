/** The lines of a deck by their text: the cells of every data line, how many lines a section has, and a deck. */
module DeckLines {
  import opened Text
  import opened Identifiers
  import opened SectionGrammar
  import opened CalculixDeck

  // ------------------------------------------------------------------ cells

  /** An integer, a number, or the name of a set or an integer. */
  datatype Kind = Whole | Number | SetOrNode

  ghost predicate IsWhole(text: string) {
    exists sign, digits :: HasIntegerShape(text, sign, digits)
  }

  ghost predicate IsNumeral(text: string) {
    exists sign, whole, fraction, exponent :: HasNumberShape(text, sign, whole, fraction, exponent)
  }

  ghost predicate IsCell(text: string, kind: Kind) {
    match kind
    case Whole => IsWhole(text)
    case Number => IsNumeral(text)
    case SetOrNode => IsName(text) || IsWhole(text)
  }

  /** The line is these cells between commas, each of its kind. */
  ghost predicate HasRow(line: string, kinds: seq<Kind>, cells: seq<string>) {
    cells != [] && |cells| == |kinds| && line == Join(cells, ',') && forall i :: 0 <= i < |cells| ==> IsCell(cells[i], kinds[i])
  }

  ghost predicate IsRow(line: string, kinds: seq<Kind>) {
    exists cells :: HasRow(line, kinds, cells)
  }

  /** What the patterns say of a cell. */
  predicate Matches(text: string, kind: Kind) {
    match kind
    case Whole => IsInteger(text)
    case Number => IsNumber(text)
    case SetOrNode => IsSetOrNode(text)
  }

  lemma CellIff(text: string, kind: Kind)
    ensures Matches(text, kind) <==> IsCell(text, kind)
  {
    IntegerIff(text);
    NumberIff(text);
  }

  lemma IntegerHasNoComma(text: string)
    requires IsInteger(text)
    ensures ',' !in text
  {
    IntegerIff(text);
    var sign, digits :| HasIntegerShape(text, sign, digits);
    assert ',' !in digits;
  }

  lemma NumberHasNoComma(text: string)
    requires IsNumber(text)
    ensures ',' !in text
  {
    var sign, whole, fraction, exponent := NumberParts(text);
    ExponentHasNoComma(exponent);
    FractionHasNoComma(fraction);
    assert ',' !in whole;
    assert ',' !in sign;
  }

  lemma FractionHasNoComma(fraction: Option<string>)
    requires fraction.Some? ==> AllDigits(fraction.value)
    ensures ',' !in PointAnd(fraction)
  {
  }

  lemma ExponentHasNoComma(exponent: string)
    requires IsExponent(exponent)
    ensures ',' !in exponent
  {
    if exponent != "" {
      IntegerHasNoComma(exponent[1..]);
      assert exponent == [exponent[0]] + exponent[1..];
    }
  }

  lemma CellHasNoComma(text: string, kind: Kind)
    requires IsCell(text, kind)
    ensures ',' !in text
  {
    CellIff(text, kind);
    match kind
    case Whole => IntegerHasNoComma(text);
    case Number => NumberHasNoComma(text);
    case SetOrNode => if !IsName(text) { IntegerHasNoComma(text); }
  }

  ghost predicate AllMatch(cells: seq<string>, kinds: seq<Kind>) {
    |cells| == |kinds| && forall i :: 0 <= i < |cells| ==> Matches(cells[i], kinds[i])
  }

  /** A line is a row of these kinds exactly if the pieces between its commas match them. */
  lemma RowIff(line: string, kinds: seq<Kind>)
    ensures IsRow(line, kinds) <==> AllMatch(Split(line, ','), kinds)
  {
    if cells :| HasRow(line, kinds, cells) {
      RowMatches(line, kinds, cells);
    }
    var pieces := Split(line, ',');
    if AllMatch(pieces, kinds) {
      JoinSplit(line, ',');
      forall i | 0 <= i < |pieces|
        ensures IsCell(pieces[i], kinds[i])
      {
        CellIff(pieces[i], kinds[i]);
      }
      assert HasRow(line, kinds, pieces);
    }
  }

  lemma RowMatches(line: string, kinds: seq<Kind>, cells: seq<string>)
    requires HasRow(line, kinds, cells)
    ensures Split(line, ',') == cells && AllMatch(cells, kinds)
  {
    forall i | 0 <= i < |cells|
      ensures ',' !in cells[i] && Matches(cells[i], kinds[i])
    {
      CellHasNoComma(cells[i], kinds[i]);
      CellIff(cells[i], kinds[i]);
    }
    SplitJoin(cells, ',');
  }

  // ------------------------------------------------------------- data lines

  lemma TwoCells(line: string, a: Kind, b: Kind)
    ensures IsRow(line, [a, b]) <==> var cells := Split(line, ','); |cells| == 2 && Matches(cells[0], a) && Matches(cells[1], b)
  {
    RowIff(line, [a, b]);
  }

  lemma ThreeCells(line: string, a: Kind, b: Kind, c: Kind)
    ensures IsRow(line, [a, b, c])
            <==> var cells := Split(line, ','); |cells| == 3 && Matches(cells[0], a) && Matches(cells[1], b) && Matches(cells[2], c)
  {
    RowIff(line, [a, b, c]);
  }

  lemma FourCells(line: string, a: Kind, b: Kind, c: Kind, d: Kind)
    ensures IsRow(line, [a, b, c, d])
            <==> var cells := Split(line, ',');
                 && |cells| == 4 && Matches(cells[0], a) && Matches(cells[1], b)
                 && Matches(cells[2], c) && Matches(cells[3], d)
  {
    RowIff(line, [a, b, c, d]);
  }

  lemma EqualCells(line: string, n: nat, kind: Kind)
    ensures IsRow(line, seq(n, _ => kind))
            <==> var cells := Split(line, ','); |cells| == n && forall i :: 0 <= i < n ==> Matches(cells[i], kind)
  {
    RowIff(line, seq(n, _ => kind));
  }

  /** A node is its number and three coordinates. */
  lemma NodeLineIff(line: string)
    ensures DataLineFits(Node, line) <==> IsRow(line, [Whole, Number, Number, Number])
  {
    FourCells(line, Whole, Number, Number, Number);
  }

  /** An element is its number and four nodes. */
  lemma ElementLineIff(line: string)
    ensures DataLineFits(Element, line) <==> IsRow(line, [Whole, Whole, Whole, Whole, Whole])
  {
    EqualCells(line, 5, Whole);
    assert seq(5, _ => Whole) == [Whole, Whole, Whole, Whole, Whole];
  }

  /** Two elastic constants. */
  lemma ElasticLineIff(line: string)
    ensures DataLineFits(Elastic, line) <==> IsRow(line, [Number, Number])
  {
    TwoCells(line, Number, Number);
  }

  /** A boundary is a set or a node, the first and the last degree of freedom, and a value. */
  lemma BoundaryLineIff(line: string)
    ensures DataLineFits(Boundary, line) <==> IsRow(line, [SetOrNode, Whole, Whole, Number])
  {
    FourCells(line, SetOrNode, Whole, Whole, Number);
  }

  /** A load is a set or a node, a degree of freedom, and a value. */
  lemma LoadLineIff(line: string)
    ensures DataLineFits(Cload, line) <==> IsRow(line, [SetOrNode, Whole, Number])
  {
    ThreeCells(line, SetOrNode, Whole, Number);
  }

  ghost predicate IsNumberRow(line: string, n: nat) {
    IsRow(line, seq(n, _ => Number))
  }

  /** The line of a static step is one number to four. */
  lemma StaticLineIff(line: string)
    ensures DataLineFits(Static, line) <==> exists n: nat :: 1 <= n <= 4 && IsNumberRow(line, n)
  {
    var n := |Split(line, ',')|;
    EqualCells(line, n, Number);
    assert DataLineFits(Static, line) ==> IsNumberRow(line, n);
    if m: nat :| 1 <= m <= 4 && IsNumberRow(line, m) {
      EqualCells(line, m, Number);
    }
  }

  /** The heading is one line of 1 to 120 printable characters, from space to tilde. */
  lemma HeadingLineIff(line: string)
    ensures DataLineFits(Heading, line) <==> 1 <= |line| <= 120 && forall c :: c in line ==> ' ' <= c <= '~'
  {
    assert forall i :: 0 <= i < |line| ==> line[i] in line;
  }

  lemma NoDataLine(section: Section, line: string)
    requires section in {Material, Step, EndStep}
    ensures !DataLineFits(section, line)
  {
  }

  /** Headings and elastic constants take one data line, nodes four at least, elements, boundaries and loads one at least,
      a static step one at most, and the others none. */
  lemma BoundsIff(n: nat)
    ensures WithinBounds(Heading, n) <==> n == 1
    ensures WithinBounds(Elastic, n) <==> n == 1
    ensures WithinBounds(Node, n) <==> n >= 4
    ensures forall section :: section in {Element, Boundary, Cload} ==> (WithinBounds(section, n) <==> n >= 1)
    ensures WithinBounds(Static, n) <==> n <= 1
    ensures forall section :: section in {Material, Step, EndStep} ==> (WithinBounds(section, n) <==> n == 0)
  {
  }

  // ------------------------------------------------------------- directives

  /** No comma in the text, and no white space at its ends. */
  predicate IsPlain(text: string) {
    text != "" && ',' !in text && IsBare(text, IsSpace)
  }

  lemma PlainIsTrimmed(text: string)
    requires text != "" && IsBare(text, IsSpace)
    ensures Trim(text) == text
  {
    StripOf("", text, "", IsSpace);
    assert "" + text + "" == text;
  }

  /** A directive is read as the fields it joins. */
  lemma FieldsAre(line: string, fields: seq<string>)
    requires fields != [] && (forall f :: f in fields ==> IsPlain(f)) && line == "*" + Join(fields, ',')
    ensures IsDirective(line) && FieldsOf(line) == fields
  {
    assert line[1..] == Join(fields, ',');
    forall i | 0 <= i < |fields|
      ensures IsPlain(fields[i]) && ',' !in fields[i] && Trim(fields[i]) == fields[i]
    {
      assert fields[i] in fields;
      PlainIsTrimmed(fields[i]);
    }
    SplitJoin(fields, ',');
  }

  /** The field is the word in any case, an equals sign and a name. */
  ghost predicate IsField(field: string, word: string, name: string) {
    IsName(name) && exists key :: EqualsIgnoringCase(key, word) && field == key + ("=" + name)
  }

  lemma FieldIff(field: string, category: Category, name: string)
    ensures IsNamed(field, category) && ValueOf(field, Key(category)).value == name <==> IsField(field, Key(category), name)
  {
    ValueIff(field, Key(category), name);
  }

  lemma ValueIff(field: string, word: string, value: string)
    ensures ValueOf(field, word) == Some(value)
            <==> exists key :: EqualsIgnoringCase(key, word) && field == key + ("=" + value)
  {
    if ValueOf(field, word) == Some(value) {
      var key := field[..|word|];
      assert field == key + ("=" + value);
    }
    if key :| EqualsIgnoringCase(key, word) && field == key + ("=" + value) {
      assert field[..|word|] == key && field[|word| + 1..] == value;
    }
  }

  ghost predicate IsFieldFor(field: string, word: string) {
    exists name :: IsField(field, word, name)
  }

  lemma NamedIff(field: string, category: Category)
    ensures IsNamed(field, category) <==> IsFieldFor(field, Key(category))
  {
    if IsNamed(field, category) {
      FieldIff(field, category, ValueOf(field, Key(category)).value);
    }
    if name :| IsField(field, Key(category), name) {
      FieldIff(field, category, name);
    }
  }

  ghost predicate AllFor(fields: seq<string>, word: string) {
    forall f :: f in fields ==> IsFieldFor(f, word)
  }

  /** Parameters of one kind, at least one of them. */
  lemma OneWord(section: Section, category: Category, fields: seq<string>)
    requires (section, category) in {(Node, NodeSet), (Material, MaterialName)}
    ensures FieldsFit(section, fields) <==> fields != [] && AllFor(fields, Key(category))
  {
    forall i | 0 <= i < |fields|
      ensures FieldAllowed(section, fields[i]) <==> IsFieldFor(fields[i], Key(category))
    {
      NamedIff(fields[i], category);
    }
    if fields != [] {
      assert FieldAllowed(section, fields[0]) ==> ValueOf(fields[0], Key(category)).Some?;
    }
  }

  /** The directive of the nodes names them, once at least. */
  lemma NodeParametersIff(fields: seq<string>)
    ensures FieldsFit(Node, fields) <==> fields != [] && AllFor(fields, "nset")
  {
    OneWord(Node, NodeSet, fields);
  }

  /** The directive of a material names it, once at least. */
  lemma MaterialParametersIff(fields: seq<string>)
    ensures FieldsFit(Material, fields) <==> fields != [] && AllFor(fields, "name")
  {
    OneWord(Material, MaterialName, fields);
  }

  ghost predicate IsSolid(field: string) {
    EqualsIgnoringCase(field, "type=c3d4")
  }

  lemma ValueStarts(field: string, word: string)
    requires word != ""
    ensures ValueOf(field, word).Some? ==> field != "" && LowerAscii(field[0]) == word[0]
  {
    if ValueOf(field, word).Some? {
      assert field[..|word|][0] == field[0];
    }
  }

  lemma ElementFieldIff(field: string)
    ensures FieldAllowed(Element, field) <==> IsSolid(field) || IsFieldFor(field, "elset")
    ensures FieldAllowed(Element, field) ==> (ValueOf(field, "elset").Some? <==> IsFieldFor(field, "elset"))
  {
    NamedIff(field, ElementSet);
    ValueStarts(field, "elset");
  }

  /** The directive of the elements gives their one solid type and names their set, each once at least. */
  lemma ElementParametersIff(fields: seq<string>)
    ensures FieldsFit(Element, fields)
            <==> && (forall f :: f in fields ==> IsSolid(f) || IsFieldFor(f, "elset"))
                 && (exists f :: f in fields && IsSolid(f)) && (exists f :: f in fields && IsFieldFor(f, "elset"))
  {
    forall f | f in fields
      ensures FieldAllowed(Element, f) <==> IsSolid(f) || IsFieldFor(f, "elset")
      ensures FieldAllowed(Element, f) ==> (ValueOf(f, "elset").Some? <==> IsFieldFor(f, "elset"))
    {
      ElementFieldIff(f);
    }
  }

  /** No other directive has a parameter. */
  lemma NoParameters(section: Section, fields: seq<string>)
    requires section !in {Node, Element, Material}
    ensures FieldsFit(section, fields) <==> fields == []
  {
    if fields != [] {
      assert !FieldAllowed(section, fields[0]);
    }
  }

  /** The symbol of a field is the word in lower case, a colon and the name as it is written. */
  lemma SymbolIff(field: string, name: string)
    ensures CategoryOf(field).Some? <==> IsFieldFor(field, "nset") || IsFieldFor(field, "elset") || IsFieldFor(field, "name")
    ensures IsField(field, "nset", name) ==> CategoryOf(field).Some? && SymbolId(field) == "nset:" + name
    ensures IsField(field, "elset", name) ==> CategoryOf(field).Some? && SymbolId(field) == "elset:" + name
    ensures IsField(field, "name", name) ==> CategoryOf(field).Some? && SymbolId(field) == "name:" + name
  {
    NamedIff(field, NodeSet);
    NamedIff(field, ElementSet);
    NamedIff(field, MaterialName);
    FieldIff(field, NodeSet, name);
    FieldIff(field, ElementSet, name);
    FieldIff(field, MaterialName, name);
    NodeSetIsNoName(field);
    ValueStarts(field, "elset");
    ValueStarts(field, "nset");
    ValueStarts(field, "name");
  }

  lemma NodeSetIsNoName(field: string)
    ensures ValueOf(field, "nset").None? || ValueOf(field, "name").None?
  {
    if ValueOf(field, "nset").Some? {
      assert field[..4][1] == field[1];
    }
  }
}
