/** A whole deck, as an author writes it, and that the subset accepts it. */
module SupportDeck {
  import opened Text
  import opened SectionGrammar
  import opened CalculixDeck
  import opened DeckLines

  /** A support block of one element, fixed at its base and loaded at one node, under a title. */
  function Sections(title: string): seq<seq<string>> {
    [ ["*HEADING", title],
      ["*NODE,NSET=BASE", "1,0,0,0", "2,1,0,0", "3,0,1,0", "4,0,0,1"],
      ["*ELEMENT,TYPE=C3D4,ELSET=SUPPORT_BLOCK", "1,1,2,3,4"],
      ["*MATERIAL,NAME=GENERIC_LINEAR"],
      ["*ELASTIC", "70000,0.33"],
      ["*STEP"],
      ["*STATIC"],
      ["*BOUNDARY", "BASE,1,3,0"],
      ["*CLOAD", "2,3,-10"],
      ["*END STEP"] ]
  }

  /** The conversion leaves the names of the directives alone. */
  ghost predicate KeepsNames(upper: string -> string) {
    forall section :: upper(DirectiveName(section)) == DirectiveName(section)
  }

  /** A data line of the section. */
  predicate FitsIn(section: Section, line: string) {
    !IsDirective(line) && DataLineFits(section, line)
  }

  // ------------------------------------------------------------- data lines

  lemma TwoPieces(a: string, b: string)
    ensures Join([a, b], ',') == a + "," + b
  {
    assert [a, b][1..] == [b];
  }

  lemma ThreePieces(a: string, b: string, c: string)
    ensures Join([a, b, c], ',') == a + "," + b + "," + c
  {
    TwoPieces(b, c);
    assert [a, b, c][1..] == [b, c];
  }

  lemma FourPieces(a: string, b: string, c: string, d: string)
    ensures Join([a, b, c, d], ',') == a + "," + b + "," + c + "," + d
  {
    ThreePieces(b, c, d);
    assert [a, b, c, d][1..] == [b, c, d];
  }

  lemma FivePieces(a: string, b: string, c: string, d: string, e: string)
    ensures Join([a, b, c, d, e], ',') == a + "," + b + "," + c + "," + d + "," + e
  {
    FourPieces(b, c, d, e);
    assert [a, b, c, d, e][1..] == [b, c, d, e];
  }

  lemma DigitsAreCells(digits: string)
    requires digits != "" && AllDigits(digits)
    ensures IsWhole(digits) && IsNumeral(digits)
  {
    assert HasIntegerShape(digits, "", digits);
    assert digits == "" + Unsigned(digits, None, "");
    assert HasNumberShape(digits, "", digits, None, "");
  }

  lemma NodeLine(line: string, a: string, b: string, c: string, d: string)
    requires IsWhole(a) && IsNumeral(b) && IsNumeral(c) && IsNumeral(d) && line == a + "," + b + "," + c + "," + d
    ensures DataLineFits(Node, line)
  {
    FourPieces(a, b, c, d);
    assert HasRow(line, [Whole, Number, Number, Number], [a, b, c, d]);
    NodeLineIff(line);
  }

  lemma ElementLine(line: string, a: string, b: string, c: string, d: string, e: string)
    requires IsWhole(a) && IsWhole(b) && IsWhole(c) && IsWhole(d) && IsWhole(e)
    requires line == a + "," + b + "," + c + "," + d + "," + e
    ensures DataLineFits(Element, line)
  {
    FivePieces(a, b, c, d, e);
    assert HasRow(line, [Whole, Whole, Whole, Whole, Whole], [a, b, c, d, e]);
    ElementLineIff(line);
  }

  lemma ElasticLine(line: string, a: string, b: string)
    requires IsNumeral(a) && IsNumeral(b) && line == a + "," + b
    ensures DataLineFits(Elastic, line)
  {
    TwoPieces(a, b);
    assert HasRow(line, [Number, Number], [a, b]);
    ElasticLineIff(line);
  }

  lemma BoundaryLine(line: string, set': string, b: string, c: string, d: string)
    requires IsName(set') && IsWhole(b) && IsWhole(c) && IsNumeral(d) && line == set' + "," + b + "," + c + "," + d
    ensures DataLineFits(Boundary, line)
  {
    FourPieces(set', b, c, d);
    assert HasRow(line, [SetOrNode, Whole, Whole, Number], [set', b, c, d]);
    BoundaryLineIff(line);
  }

  lemma LoadLine(line: string, node: string, b: string, c: string)
    requires IsWhole(node) && IsWhole(b) && IsNumeral(c) && line == node + "," + b + "," + c
    ensures DataLineFits(Cload, line)
  {
    ThreePieces(node, b, c);
    assert HasRow(line, [SetOrNode, Whole, Number], [node, b, c]);
    LoadLineIff(line);
  }

  lemma DigitIsCell(c: char)
    requires IsDigit(c)
    ensures IsWhole([c]) && IsNumeral([c])
  {
    DigitsAreCells([c]);
  }

  lemma NodeData(line: string, a: char, b: char, c: char, d: char)
    requires IsDigit(a) && IsDigit(b) && IsDigit(c) && IsDigit(d) && line == [a, ',', b, ',', c, ',', d]
    ensures FitsIn(Node, line)
  {
    DigitIsCell(a);
    DigitIsCell(b);
    DigitIsCell(c);
    DigitIsCell(d);
    NodeLine(line, [a], [b], [c], [d]);
  }

  lemma ElementData(line: string, a: char, b: char, c: char, d: char, e: char)
    requires IsDigit(a) && IsDigit(b) && IsDigit(c) && IsDigit(d) && IsDigit(e)
    requires line == [a, ',', b, ',', c, ',', d, ',', e]
    ensures FitsIn(Element, line)
  {
    DigitIsCell(a);
    DigitIsCell(b);
    DigitIsCell(c);
    DigitIsCell(d);
    DigitIsCell(e);
    ElementLine(line, [a], [b], [c], [d], [e]);
  }

  lemma ElasticData(line: string)
    requires line == "70000,0.33"
    ensures FitsIn(Elastic, line)
  {
    ElasticOf(line, "70000", "0", "33");
  }

  lemma ElasticOf(line: string, modulus: string, whole: string, fraction: string)
    requires modulus != "" && whole != "" && AllDigits(modulus) && AllDigits(whole) && AllDigits(fraction)
    requires line == modulus + "," + (whole + ("." + fraction))
    ensures DataLineFits(Elastic, line)
  {
    DigitsAreCells(modulus);
    DecimalIsCell(whole, fraction);
    ElasticLine(line, modulus, whole + ("." + fraction));
  }

  lemma DecimalIsCell(whole: string, fraction: string)
    requires whole != "" && AllDigits(whole) && AllDigits(fraction)
    ensures IsNumeral(whole + ("." + fraction))
  {
    var text := whole + ("." + fraction);
    assert text == "" + Unsigned(whole, Some(fraction), "");
    assert HasNumberShape(text, "", whole, Some(fraction), "");
  }

  lemma NegativeIsCell(digits: string)
    requires digits != "" && AllDigits(digits)
    ensures IsNumeral("-" + digits)
  {
    assert "-" + digits == "-" + Unsigned(digits, None, "");
    assert HasNumberShape("-" + digits, "-", digits, None, "");
  }

  lemma BoundaryData(line: string, set': string, b: char, c: char, d: char)
    requires IsName(set') && IsDigit(b) && IsDigit(c) && IsDigit(d) && line == set' + [',', b, ',', c, ',', d]
    ensures FitsIn(Boundary, line)
  {
    DigitIsCell(b);
    DigitIsCell(c);
    DigitIsCell(d);
    assert line == set' + "," + [b] + "," + [c] + "," + [d];
    BoundaryLine(line, set', [b], [c], [d]);
    assert line[0] == set'[0];
  }

  lemma LoadData(line: string, node: char, b: char, digits: string)
    requires IsDigit(node) && IsDigit(b) && digits != "" && AllDigits(digits) && line == [node, ',', b, ',', '-'] + digits
    ensures FitsIn(Cload, line)
  {
    DigitIsCell(node);
    DigitIsCell(b);
    NegativeIsCell(digits);
    assert line == [node] + "," + [b] + "," + ("-" + digits);
    LoadLine(line, [node], [b], "-" + digits);
  }

  // ------------------------------------------------------------- directives

  /** The fields suit the directive, and are read as they stand. */
  predicate IsFit(section: Section, fields: seq<string>) {
    FieldsFit(section, fields) && forall f :: f in fields ==> IsPlain(f) && NameIsSafe(f)
  }

  /** A directive without parameters. */
  lemma BareDirective(i: nat, line: string, upper: string -> string)
    requires i < |SEQUENCE| && SEQUENCE[i] !in {Node, Element, Material} && KeepsNames(upper)
    requires IsPlain(DirectiveName(SEQUENCE[i])) && line == "*" + DirectiveName(SEQUENCE[i])
    ensures DirectiveFits(i, line, upper)
  {
    var fields := [DirectiveName(SEQUENCE[i])];
    FieldsAre(line, fields);
    NoParameters(SEQUENCE[i], fields[1..]);
  }

  /** A directive with one named parameter. */
  lemma NamedDirective(i: nat, line: string, field: string, upper: string -> string)
    requires i < |SEQUENCE| && KeepsNames(upper) && IsPlain(DirectiveName(SEQUENCE[i])) && IsFit(SEQUENCE[i], [field])
    requires line == "*" + (DirectiveName(SEQUENCE[i]) + "," + field)
    ensures DirectiveFits(i, line, upper)
  {
    var fields := [DirectiveName(SEQUENCE[i]), field];
    assert field in [field];
    TwoPieces(fields[0], field);
    FieldsAre(line, fields);
    assert fields[1..] == [field];
  }

  lemma TwiceNamedDirective(i: nat, line: string, first: string, second: string, upper: string -> string)
    requires i < |SEQUENCE| && KeepsNames(upper) && IsPlain(DirectiveName(SEQUENCE[i]))
    requires line == "*" + (DirectiveName(SEQUENCE[i]) + "," + first + "," + second) && IsFit(SEQUENCE[i], [first, second])
    ensures DirectiveFits(i, line, upper)
  {
    var fields := [DirectiveName(SEQUENCE[i]), first, second];
    assert first in [first, second] && second in [first, second];
    ThreePieces(fields[0], first, second);
    FieldsAre(line, fields);
    assert fields[1..] == [first, second];
  }

  lemma ShortFieldIsSafe(field: string)
    requires |field| <= 256
    ensures NameIsSafe(field)
  {
    if CategoryOf(field).Some? { SafeIffShort(field); }
  }

  lemma FieldOf(field: string, key: string, word: string, name: string)
    requires EqualsIgnoringCase(key, word) && IsName(name) && field == key + ("=" + name)
    ensures IsFieldFor(field, word)
  {
    assert IsField(field, word, name);
  }

  predicate IsWord(word: string) {
    word != "" && forall i :: 0 <= i < |word| ==> IsLetter(word[i])
  }

  lemma FieldIsPlain(key: string, name: string)
    requires IsWord(key) && IsName(name)
    ensures IsPlain(key + ("=" + name))
  {
    var field := key + ("=" + name);
    forall i | 0 <= i < |field|
      ensures field[i] != ',' && !IsSpace(field[i])
    {
      assert field[i] == if i < |key| then key[i] else if i == |key| then '=' else name[i - |key| - 1];
    }
  }

  lemma NodesNamed(key: string, name: string)
    requires IsWord(key) && EqualsIgnoringCase(key, "nset") && IsName(name) && |name| <= 200
    ensures IsFit(Node, [key + ("=" + name)])
  {
    var field := key + ("=" + name);
    FieldOf(field, key, "nset", name);
    NodeParametersIff([field]);
    ShortFieldIsSafe(field);
    FieldIsPlain(key, name);
  }

  lemma MaterialNamed(key: string, name: string)
    requires IsWord(key) && EqualsIgnoringCase(key, "name") && IsName(name) && |name| <= 200
    ensures IsFit(Material, [key + ("=" + name)])
  {
    var field := key + ("=" + name);
    FieldOf(field, key, "name", name);
    MaterialParametersIff([field]);
    ShortFieldIsSafe(field);
    FieldIsPlain(key, name);
  }

  lemma ElementsNamed(solid: string, key: string, name: string)
    requires IsSolid(solid) && IsPlain(solid) && IsWord(key) && EqualsIgnoringCase(key, "elset") && IsName(name) && |name| <= 200
    ensures IsFit(Element, [solid, key + ("=" + name)])
  {
    var field := key + ("=" + name);
    FieldOf(field, key, "elset", name);
    assert solid in [solid, field] && field in [solid, field];
    ElementParametersIff([solid, field]);
    ShortFieldIsSafe(solid);
    ShortFieldIsSafe(field);
    FieldIsPlain(key, name);
  }

  lemma NamedNodes(line: string, key: string, name: string, upper: string -> string)
    requires IsWord(key) && EqualsIgnoringCase(key, "nset") && IsName(name) && |name| <= 200 && KeepsNames(upper)
    requires line == "*" + ("NODE" + "," + (key + ("=" + name)))
    ensures DirectiveFits(1, line, upper)
  {
    NodesNamed(key, name);
    NamedDirective(1, line, key + ("=" + name), upper);
  }

  lemma NamedMaterial(line: string, key: string, name: string, upper: string -> string)
    requires IsWord(key) && EqualsIgnoringCase(key, "name") && IsName(name) && |name| <= 200 && KeepsNames(upper)
    requires line == "*" + ("MATERIAL" + "," + (key + ("=" + name)))
    ensures DirectiveFits(3, line, upper)
  {
    MaterialNamed(key, name);
    NamedDirective(3, line, key + ("=" + name), upper);
  }

  lemma NamedElements(line: string, solid: string, key: string, name: string, upper: string -> string)
    requires IsSolid(solid) && IsPlain(solid) && IsWord(key) && EqualsIgnoringCase(key, "elset") && IsName(name)
    requires |name| <= 200 && KeepsNames(upper) && line == "*" + ("ELEMENT" + "," + solid + "," + (key + ("=" + name)))
    ensures DirectiveFits(2, line, upper)
  {
    ElementsNamed(solid, key, name);
    TwiceNamedDirective(2, line, solid, key + ("=" + name), upper);
  }

  lemma NodeDirective(line: string, upper: string -> string)
    requires line == "*NODE,NSET=BASE" && KeepsNames(upper)
    ensures DirectiveFits(1, line, upper)
  {
    NamedNodes(line, "NSET", "BASE", upper);
  }

  lemma ElementDirective(line: string, upper: string -> string)
    requires line == "*ELEMENT,TYPE=C3D4,ELSET=SUPPORT_BLOCK" && KeepsNames(upper)
    ensures DirectiveFits(2, line, upper)
  {
    ElementText();
    ElementWords();
    NamedElements(line, "TYPE=C3D4", "ELSET", "SUPPORT_BLOCK", upper);
  }

  lemma ElementWords()
    ensures IsSolid("TYPE=C3D4") && IsPlain("TYPE=C3D4") && IsWord("ELSET") && EqualsIgnoringCase("ELSET", "elset")
    ensures IsName("SUPPORT_BLOCK")
  {
  }

  lemma ElementText()
    ensures "*ELEMENT,TYPE=C3D4,ELSET=SUPPORT_BLOCK"
         == "*" + ("ELEMENT" + "," + "TYPE=C3D4" + "," + ("ELSET" + ("=" + "SUPPORT_BLOCK")))
  {
  }

  lemma MaterialDirective(line: string, upper: string -> string)
    requires line == "*MATERIAL,NAME=GENERIC_LINEAR" && KeepsNames(upper)
    ensures DirectiveFits(3, line, upper)
  {
    MaterialText();
    NamedMaterial(line, "NAME", "GENERIC_LINEAR", upper);
  }

  lemma MaterialText()
    ensures "*MATERIAL,NAME=GENERIC_LINEAR" == "*" + ("MATERIAL" + "," + ("NAME" + ("=" + "GENERIC_LINEAR")))
  {
  }

  // --------------------------------------------------------------- sections

  /** A directive and the data lines of its section, as many as it may have. */
  ghost predicate IsSection(i: nat, lines: seq<string>, upper: string -> string) {
    && i < |SEQUENCE| && lines != [] && DirectiveFits(i, lines[0], upper) && WithinBounds(SEQUENCE[i], |lines| - 1)
    && forall k :: 1 <= k < |lines| ==> FitsIn(SEQUENCE[i], lines[k])
  }

  lemma SectionIsComplete(i: nat, lines: seq<string>, upper: string -> string)
    requires IsSection(i, lines, upper)
    ensures Complete(DeckRules(upper), i, lines)
  {
  }

  lemma BareSection(i: nat, lines: seq<string>, name: string, upper: string -> string)
    requires i in {5, 6, 9} && KeepsNames(upper) && name == DirectiveName(SEQUENCE[i])
    requires |lines| == 1 && lines[0] == "*" + name
    ensures IsSection(i, lines, upper)
  {
    BareDirective(i, lines[0], upper);
  }

  lemma PairSection(i: nat, lines: seq<string>, upper: string -> string)
    requires i < |SEQUENCE| && |lines| == 2 && DirectiveFits(i, lines[0], upper)
    requires WithinBounds(SEQUENCE[i], 1) && FitsIn(SEQUENCE[i], lines[1])
    ensures IsSection(i, lines, upper)
  {
  }

  lemma HeadingSection(lines: seq<string>, upper: string -> string)
    requires |lines| == 2 && lines[0] == "*HEADING" && IsHeading(lines[1]) && !IsDirective(lines[1]) && KeepsNames(upper)
    ensures IsSection(0, lines, upper)
  {
    BareDirective(0, lines[0], upper);
  }

  predicate AreFourNodes(lines: seq<string>) {
    && |lines| == 5 && lines[1] == "1,0,0,0" && lines[2] == "2,1,0,0"
    && lines[3] == "3,0,1,0" && lines[4] == "4,0,0,1"
  }

  lemma NodeAt(lines: seq<string>, k: nat)
    requires AreFourNodes(lines) && 1 <= k < 5
    ensures FitsIn(Node, lines[k])
  {
    var line := lines[k];
    NodeData(line, line[0], line[2], line[4], line[6]);
  }

  lemma NodeSection(lines: seq<string>, upper: string -> string)
    requires AreFourNodes(lines) && lines[0] == "*NODE,NSET=BASE" && KeepsNames(upper)
    ensures IsSection(1, lines, upper)
  {
    NodeDirective(lines[0], upper);
    forall k | 1 <= k < |lines|
      ensures FitsIn(Node, lines[k])
    {
      NodeAt(lines, k);
    }
  }

  lemma ElementSection(lines: seq<string>, upper: string -> string)
    requires |lines| == 2 && lines[0] == "*ELEMENT,TYPE=C3D4,ELSET=SUPPORT_BLOCK" && lines[1] == "1,1,2,3,4"
    requires KeepsNames(upper)
    ensures IsSection(2, lines, upper)
  {
    ElementDirective(lines[0], upper);
    ElementData(lines[1], '1', '1', '2', '3', '4');
    PairSection(2, lines, upper);
  }

  lemma MaterialSection(lines: seq<string>, upper: string -> string)
    requires |lines| == 1 && lines[0] == "*MATERIAL,NAME=GENERIC_LINEAR" && KeepsNames(upper)
    ensures IsSection(3, lines, upper)
  {
    MaterialDirective(lines[0], upper);
  }

  lemma ElasticSection(lines: seq<string>, upper: string -> string)
    requires |lines| == 2 && lines[0] == "*ELASTIC" && lines[1] == "70000,0.33" && KeepsNames(upper)
    ensures IsSection(4, lines, upper)
  {
    BareDirective(4, lines[0], upper);
    ElasticData(lines[1]);
    PairSection(4, lines, upper);
  }

  lemma BoundarySection(lines: seq<string>, upper: string -> string)
    requires |lines| == 2 && lines[0] == "*BOUNDARY" && lines[1] == "BASE,1,3,0" && KeepsNames(upper)
    ensures IsSection(7, lines, upper)
  {
    BareDirective(7, lines[0], upper);
    BoundaryText(lines[1]);
    PairSection(7, lines, upper);
  }

  lemma BoundaryText(line: string)
    requires line == "BASE,1,3,0"
    ensures FitsIn(Boundary, line)
  {
    BoundaryData(line, "BASE", '1', '3', '0');
  }

  lemma LoadSection(lines: seq<string>, upper: string -> string)
    requires |lines| == 2 && lines[0] == "*CLOAD" && lines[1] == "2,3,-10" && KeepsNames(upper)
    ensures IsSection(8, lines, upper)
  {
    BareDirective(8, lines[0], upper);
    LoadText(lines[1]);
    PairSection(8, lines, upper);
  }

  lemma LoadText(line: string)
    requires line == "2,3,-10"
    ensures FitsIn(Cload, line)
  {
    LoadData(line, '2', '3', "10");
  }

  // --------------------------------------------------------------- the text

  predicate IsWritten(line: string) {
    line != "" && '\n' !in line && IsBare(line, IsSpace) && !IsComment(line)
  }

  predicate AllWritten(lines: seq<string>) {
    forall k :: 0 <= k < |lines| ==> IsWritten(lines[k])
  }

  lemma {:induction false} RelevantOf(lines: seq<string>)
    requires AllWritten(lines)
    ensures Relevant(lines) == lines
  {
    if lines != [] {
      RelevantOf(lines[..|lines| - 1]);
      PlainIsTrimmed(lines[|lines| - 1]);
      assert lines == lines[..|lines| - 1] + [lines[|lines| - 1]];
    }
  }

  lemma {:induction false} FlattenWritten(sections: seq<seq<string>>)
    requires forall i :: 0 <= i < |sections| ==> AllWritten(sections[i])
    ensures AllWritten(Flatten(sections))
  {
    if sections != [] {
      FlattenWritten(sections[..|sections| - 1]);
    }
  }

  /** What the lines between line feeds are read as. */
  lemma LinesOfText(lines: seq<string>)
    requires lines != [] && AllWritten(lines)
    ensures Relevant(Split(Join(lines, '\n'), '\n')) == lines
  {
    SplitJoin(lines, '\n');
    RelevantOf(lines);
  }

  /** Ten sections, each as it should be, are accepted as the text that joins their lines. */
  lemma SectionsAreAccepted(sections: seq<seq<string>>, upper: string -> string)
    requires |sections| == |SEQUENCE| && forall i :: 0 <= i < |sections| ==> IsSection(i, sections[i], upper)
    requires forall i :: 0 <= i < |sections| ==> AllWritten(sections[i])
    ensures IsCalculixDeck(Join(Flatten(sections), '\n'), upper)
  {
    forall i | 0 <= i < |sections|
      ensures Complete(DeckRules(upper), i, sections[i])
    {
      SectionIsComplete(i, sections[i], upper);
    }
    var lines := Flatten(sections);
    assert IsDeck(DeckRules(upper), |SEQUENCE|, sections, lines);
    FlattenWritten(sections);
    LastIsLast(sections);
    LinesOfText(lines);
  }

  lemma LastIsLast(sections: seq<seq<string>>)
    requires sections != [] && sections[|sections| - 1] != []
    ensures Flatten(sections) != []
  {
  }

  predicate IsTitle(title: string) {
    IsHeading(title) && IsBare(title, IsSpace) && title[0] != '*'
  }

  lemma SectionAt(title: string, sections: seq<seq<string>>, i: nat, upper: string -> string)
    requires IsTitle(title) && KeepsNames(upper) && sections == Sections(title) && i < |SEQUENCE|
    ensures IsSection(i, sections[i], upper)
  {
    if i == 0 { HeadingSection(sections[0], upper); }
    else if i == 1 { NodeSection(sections[1], upper); }
    else if i == 2 { ElementSection(sections[2], upper); }
    else if i == 3 { MaterialSection(sections[3], upper); }
    else if i == 4 { ElasticSection(sections[4], upper); }
    else if i == 7 { BoundarySection(sections[7], upper); }
    else if i == 8 { LoadSection(sections[8], upper); }
    else if i == 5 { BareSection(5, sections[5], "STEP", upper); }
    else if i == 6 { BareSection(6, sections[6], "STATIC", upper); }
    else { BareSection(9, sections[9], "END STEP", upper); }
  }

  lemma WrittenAt(title: string, sections: seq<seq<string>>, i: nat)
    requires IsTitle(title) && sections == Sections(title) && i < |SEQUENCE|
    ensures AllWritten(sections[i])
  {
    if i == 0 {
      HeadingWritten(sections[0]);
    } else if i == 1 {
      NodesWritten(sections[1]);
    } else if i == 2 {
      ElementsWritten(sections[2]);
    } else if i == 3 {
      MaterialWritten(sections[3]);
    } else {
      assert |sections[i]| <= 2;
    }
  }

  lemma HeadingWritten(lines: seq<string>)
    requires |lines| == 2 && lines[0] == "*HEADING" && IsTitle(lines[1])
    ensures AllWritten(lines)
  {
  }

  lemma ElementsWritten(lines: seq<string>)
    requires |lines| == 2 && lines[0] == "*ELEMENT,TYPE=C3D4,ELSET=SUPPORT_BLOCK" && lines[1] == "1,1,2,3,4"
    ensures AllWritten(lines)
  {
  }

  lemma MaterialWritten(lines: seq<string>)
    requires |lines| == 1 && lines[0] == "*MATERIAL,NAME=GENERIC_LINEAR"
    ensures AllWritten(lines)
  {
  }

  lemma NodesWritten(lines: seq<string>)
    requires AreFourNodes(lines) && lines[0] == "*NODE,NSET=BASE"
    ensures AllWritten(lines)
  {
  }

  /** The deck is accepted, whatever its title. */
  lemma SupportIsAccepted(title: string, upper: string -> string)
    requires IsTitle(title) && KeepsNames(upper)
    ensures IsCalculixDeck(Join(Flatten(Sections(title)), '\n'), upper)
  {
    var sections := Sections(title);
    forall i | 0 <= i < |sections|
      ensures IsSection(i, sections[i], upper) && AllWritten(sections[i])
    {
      SectionAt(title, sections, i, upper);
      WrittenAt(title, sections, i);
    }
    SectionsAreAccepted(sections, upper);
  }
}
