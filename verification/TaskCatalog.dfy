/** The one-pass reader of a Markdown catalogue: task names from its tables. */
module TaskCatalog {
  import opened Text
  import opened FenceLines

  // ------------------------------------------------------------- one line

  predicate IsBlankChar(c: char) { c == ' ' || c == '\t' }

  /** The capture of `^ {0,3}\|(.+)\|[ \t]*$` */
  function TableText(line: string): Option<string> {
    var indent := Run(line, ' ');
    var body := DropLastWhile(line, IsBlankChar);
    if indent <= 3 && indent + 2 < |body| && body[indent] == '|' && body[|body| - 1] == '|' && OneLine(body[indent + 1..|body| - 1])
    then Some(body[indent + 1..|body| - 1]) else None
  }

  /** The cells of a table line; a line with fewer than two cells is none. */
  function Cells(line: string): (r: Option<seq<string>>)
    ensures r.Some? ==> |r.value| >= 2
  {
    var text := TableText(line);
    if text.None? then None
    else
      var cells := Split(text.value, '|');
      if |cells| < 2 then None else Some(cells)
  }

  /** `^[ \t]*:?-+:?[ \t]*$` */
  predicate IsDelimiterCell(cell: string) {
    IsDelimiterCore(Strip(cell, IsBlankChar))
  }

  predicate IsDelimiter(cells: seq<string>) {
    forall i :: 0 <= i < |cells| ==> IsDelimiterCell(cells[i])
  }

  /** The trimmed capture of `^[ \t]*`([^`\n]+)`[ \t]*$` */
  function CodeSpan(cell: string): Option<string> {
    var core := Strip(cell, IsBlankChar);
    if |core| >= 3 && core[0] == '`' && core[|core| - 1] == '`'
       && (forall i :: 1 <= i < |core| - 1 ==> core[i] != '`' && core[i] != '\n')
    then Some(Trim(core[1..|core| - 1])) else None
  }

  // ------------------------------------------------- the shapes of the patterns

  ghost predicate HasTableShape(line: string, indent: nat, text: string, blanks: string) {
    && indent <= 3 && text != "" && OneLine(text) && All(blanks, IsBlankChar)
    && line == Repeat(' ', indent) + ("|" + text + "|") + blanks
  }

  /** A line is a table line with that text exactly if it is at most three spaces, the text between bars, and blanks. */
  lemma TableTextIff(line: string, text: string)
    ensures TableText(line) == Some(text) <==> exists indent, blanks :: HasTableShape(line, indent, text, blanks)
  {
    if TableText(line) == Some(text) {
      var indent, blanks := TableTextParts(line, text);
    }
    if indent, blanks :| HasTableShape(line, indent, text, blanks) {
      TableTextOf(line, indent, text, blanks);
    }
  }

  lemma TableTextParts(line: string, text: string) returns (indent: nat, blanks: string)
    requires TableText(line) == Some(text)
    ensures HasTableShape(line, indent, text, blanks)
  {
    indent := Run(line, ' ');
    var body := DropLastWhile(line, IsBlankChar);
    blanks := DropLastWhileSplits(line, IsBlankChar);
    RunSplits(line, ' ');
    Prefix(line, body, indent);
    BetweenBars(body, indent);
  }

  lemma Prefix(line: string, body: string, k: nat)
    requires |body| <= |line| && body == line[..|body|] && k <= |body|
    ensures body[..k] == line[..k]
  {
  }

  lemma BetweenBars(body: string, k: nat)
    requires k + 2 < |body| && body[k] == '|' && body[|body| - 1] == '|'
    ensures body == body[..k] + ("|" + body[k + 1..|body| - 1] + "|")
  {
  }

  lemma TableTextOf(line: string, indent: nat, text: string, blanks: string)
    requires HasTableShape(line, indent, text, blanks)
    ensures TableText(line) == Some(text)
  {
    var bars := "|" + text + "|";
    var body := Repeat(' ', indent) + bars;
    Regroup(Repeat(' ', indent), bars, blanks);
    RunOf(' ', indent, bars + blanks);
    DropLastWhileOf(body, blanks, IsBlankChar);
    InsideBars(body, indent, text);
  }

  lemma InsideBars(body: string, k: nat, text: string)
    requires k <= |body| && body[k..] == "|" + text + "|"
    ensures body[k] == '|' && body[|body| - 1] == '|' && k + 1 < |body| && body[k + 1..|body| - 1] == text
  {
    assert body[k] == body[k..][0] && body[|body| - 1] == body[k..][|body| - 1 - k];
    assert body[k + 1..|body| - 1] == body[k..][1..|body| - 1 - k];
  }

  function Colon(present: bool): string {
    if present then ":" else ""
  }

  ghost predicate HasDelimiterShape(cell: string, head: string, left: bool, dashes: nat, right: bool, tail: string) {
    && dashes >= 1 && All(head, IsBlankChar) && All(tail, IsBlankChar)
    && cell == head + (Colon(left) + Repeat('-', dashes) + Colon(right)) + tail
  }

  /** A cell is a delimiter exactly if it is dashes, perhaps between colons, and blanks around. */
  lemma DelimiterIff(cell: string)
    ensures IsDelimiterCell(cell)
            <==> exists head, left, dashes, right, tail :: HasDelimiterShape(cell, head, left, dashes, right, tail)
  {
    if IsDelimiterCell(cell) {
      var core := Strip(cell, IsBlankChar);
      var head, tail := StripSplits(cell, IsBlankChar);
      var left, dashes, right := CoreOfDelimiter(core);
      assert HasDelimiterShape(cell, head, left, dashes, right, tail);
    }
    if head, left, dashes, right, tail :| HasDelimiterShape(cell, head, left, dashes, right, tail) {
      var core := Colon(left) + Repeat('-', dashes) + Colon(right);
      StripOf(head, core, tail, IsBlankChar);
      DelimiterCore(core, left, dashes, right);
    }
  }

  predicate IsDelimiterCore(core: string) {
    var start := if core != "" && core[0] == ':' then 1 else 0;
    var end := if |core| > start && core[|core| - 1] == ':' then |core| - 1 else |core|;
    start < end && forall i :: start <= i < end ==> core[i] == '-'
  }

  lemma CoreOfDelimiter(core: string) returns (left: bool, dashes: nat, right: bool)
    requires IsDelimiterCore(core)
    ensures dashes >= 1 && core == Colon(left) + Repeat('-', dashes) + Colon(right)
  {
    left := core[0] == ':';
    var start := if left then 1 else 0;
    right := core[|core| - 1] == ':';
    var end := if right then |core| - 1 else |core|;
    dashes := end - start;
    assert core[start..end] == Repeat('-', dashes);
    assert core == core[..start] + core[start..end] + core[end..];
  }

  lemma DelimiterCore(core: string, left: bool, dashes: nat, right: bool)
    requires dashes >= 1 && core == Colon(left) + Repeat('-', dashes) + Colon(right)
    ensures IsDelimiterCore(core)
  {
    var start := |Colon(left)|;
    assert core[start..start + dashes] == Repeat('-', dashes);
    forall i | start <= i < start + dashes
      ensures core[i] == '-'
    {
      assert core[i] == core[start..start + dashes][i - start];
    }
  }

  ghost predicate HasCodeShape(cell: string, head: string, inner: string, tail: string) {
    && inner != "" && '`' !in inner && '\n' !in inner && All(head, IsBlankChar) && All(tail, IsBlankChar)
    && cell == head + ("`" + inner + "`") + tail
  }

  /** A cell names a task exactly if it is one code span, perhaps between blanks, and the name is its trimmed content. */
  lemma CodeSpanIff(cell: string, name: string)
    ensures CodeSpan(cell) == Some(name)
            <==> exists head, inner, tail :: HasCodeShape(cell, head, inner, tail) && name == Trim(inner)
  {
    if CodeSpan(cell) == Some(name) {
      var head, inner, tail := CodeSpanParts(cell, name);
    }
    if head, inner, tail :| HasCodeShape(cell, head, inner, tail) && name == Trim(inner) {
      CodeSpanOf(cell, head, inner, tail);
    }
  }

  lemma CodeSpanParts(cell: string, name: string) returns (head: string, inner: string, tail: string)
    requires CodeSpan(cell) == Some(name)
    ensures HasCodeShape(cell, head, inner, tail) && name == Trim(inner)
  {
    var core := Strip(cell, IsBlankChar);
    inner := core[1..|core| - 1];
    head, tail := StripSplits(cell, IsBlankChar);
    BetweenTicks(core);
  }

  lemma BetweenTicks(core: string)
    requires |core| >= 2 && core[0] == '`' && core[|core| - 1] == '`'
    ensures core == "`" + core[1..|core| - 1] + "`"
  {
  }

  lemma CodeSpanOf(cell: string, head: string, inner: string, tail: string)
    requires HasCodeShape(cell, head, inner, tail)
    ensures CodeSpan(cell) == Some(Trim(inner))
  {
    var core := "`" + inner + "`";
    StripOf(head, core, tail, IsBlankChar);
    assert core[1..|core| - 1] == inner;
    assert forall i :: 1 <= i < |core| - 1 ==> core[i] in inner;
  }

  /** What a line is to the machine: a fence, a table line, or something else. */
  datatype Line = FenceLine(fence: Fence) | Row(width: nat, delimiter: bool, name: Option<string>) | Other

  function LineOf(text: string): Line {
    var fence, cells := FenceOf(text), Cells(text);
    if fence.Some? then FenceLine(fence.value)
    else if cells.None? then Other
    else Row(|cells.value|, IsDelimiter(cells.value), CodeSpan(cells.value[0]))
  }

  function Lines(body: string): seq<Line> {
    var texts := Split(body, '\n');
    seq(|texts|, i requires 0 <= i < |texts| => LineOf(texts[i]))
  }

  /** The text is a table line with these cells. */
  ghost predicate HasCells(text: string, cells: seq<string>) {
    |cells| >= 2 && FenceOf(text).None?
    && exists indent: nat, inner, blanks :: HasTableShape(text, indent, inner, blanks) && cells == Split(inner, '|')
  }

  ghost predicate IsDelimiterText(cell: string) {
    exists head, left, dashes, right, tail :: HasDelimiterShape(cell, head, left, dashes, right, tail)
  }

  ghost predicate SpellsTask(cell: string, name: string) {
    exists head, inner, tail :: HasCodeShape(cell, head, inner, tail) && name == Trim(inner)
  }

  /** A row with these cells: their number, whether all are delimiters, and the name that the first one spells. */
  ghost predicate IsRowOf(cells: seq<string>, width: nat, delimiter: bool, name: Option<string>) {
    && cells != [] && width == |cells|
    && (delimiter <==> forall i :: 0 <= i < |cells| ==> IsDelimiterText(cells[i]))
    && (forall n :: name == Some(n) <==> SpellsTask(cells[0], n))
  }

  /** What the scanner takes a line for, by its text: a fence, a row with its first cell, or something else. */
  ghost predicate IsReadAs(text: string, line: Line) {
    match line
    case FenceLine(fence) => FenceOf(text) == Some(fence)
    case Row(width, delimiter, name) => exists cells :: HasCells(text, cells) && IsRowOf(cells, width, delimiter, name)
    case Other => FenceOf(text).None? && forall cells :: !HasCells(text, cells)
  }

  lemma CellsIff(text: string, cells: seq<string>)
    requires FenceOf(text).None?
    ensures Cells(text) == Some(cells) <==> HasCells(text, cells)
  {
    if Cells(text) == Some(cells) {
      TableTextIff(text, TableText(text).value);
    }
    if HasCells(text, cells) {
      var indent: nat, inner, blanks :| HasTableShape(text, indent, inner, blanks) && cells == Split(inner, '|');
      TableTextIff(text, inner);
    }
  }

  /** Every line is read as its text says. */
  lemma LineReadsText(text: string)
    ensures IsReadAs(text, LineOf(text))
  {
    if FenceOf(text).None? {
      forall cells
        ensures Cells(text) == Some(cells) <==> HasCells(text, cells)
      {
        CellsIff(text, cells);
      }
      if Cells(text).Some? { RowReadsCells(Cells(text).value); }
    }
  }

  lemma RowReadsCells(cells: seq<string>)
    requires cells != []
    ensures IsRowOf(cells, |cells|, IsDelimiter(cells), CodeSpan(cells[0]))
  {
    forall i | 0 <= i < |cells|
      ensures IsDelimiterCell(cells[i]) <==> IsDelimiterText(cells[i])
    {
      DelimiterIff(cells[i]);
    }
    forall n
      ensures CodeSpan(cells[0]) == Some(n) <==> SpellsTask(cells[0], n)
    {
      CodeSpanIff(cells[0], n);
    }
  }

  // ------------------------------------------------- the declarative reading

  /** The fence in whose block line `i` lies, by the number of the line that opens it. */
  function OpenFence(lines: seq<Line>, i: nat): (o: Option<nat>)
    requires i <= |lines|
    ensures o.Some? ==> o.value < i && lines[o.value].FenceLine?
  {
    if i == 0 then None
    else
      var before, line := OpenFence(lines, i - 1), lines[i - 1];
      if !line.FenceLine? then before
      else if before.None? then Some(i - 1)
      else if Closes(lines[before.value].fence, line.fence) then None
      else before
  }

  predicate ClosesBlock(lines: seq<Line>, o: nat, k: nat)
    requires o < k < |lines|
  {
    lines[o].FenceLine? && lines[k].FenceLine? && Closes(lines[o].fence, lines[k].fence)
  }

  /** A block starts at a fence outside every block and lasts to the first line that closes it. */
  lemma {:induction false} InBlockIff(lines: seq<Line>, i: nat, o: nat)
    requires o < i <= |lines|
    ensures OpenFence(lines, i) == Some(o)
            <==> lines[o].FenceLine? && OpenFence(lines, o).None? && forall k :: o < k < i ==> !ClosesBlock(lines, o, k)
  {
    if o < i - 1 {
      InBlockIff(lines, i - 1, o);
      BlockStep(lines, i, o);
    }
  }

  lemma BlockStep(lines: seq<Line>, i: nat, o: nat)
    requires o < i - 1 < |lines|
    ensures OpenFence(lines, i) == Some(o) <==> OpenFence(lines, i - 1) == Some(o) && !ClosesBlock(lines, o, i - 1)
  {
  }

  /** An unfenced table line. */
  predicate IsTableLine(lines: seq<Line>, k: nat)
    requires k < |lines|
  {
    OpenFence(lines, k).None? && lines[k].Row?
  }

  predicate IsHeader(lines: seq<Line>, k: nat)
    requires k < |lines|
  {
    IsTableLine(lines, k) && !lines[k].delimiter
  }

  /** Lines `h` and `h + 1` are a header and a delimiter with as many cells, and all lines to `end` are table lines. */
  ghost predicate Opened(lines: seq<Line>, h: nat, end: nat)
    requires end <= |lines|
  {
    && h + 1 < end
    && (forall k :: h <= k < end ==> IsTableLine(lines, k))
    && IsHeader(lines, h) && !IsHeader(lines, h + 1)
    && lines[h].width == lines[h + 1].width
  }

  ghost predicate InTable(lines: seq<Line>, end: nat)
    requires end <= |lines|
  {
    exists h :: 0 <= h < end && Opened(lines, h, end)
  }

  /** Line `r` is a row of a table and its first cell is the code span `name`. */
  ghost predicate Names(lines: seq<Line>, r: nat, name: string)
    requires r < |lines|
  {
    InTable(lines, r) && IsHeader(lines, r) && lines[r].name == Some(name)
  }

  /** The text is a table line whose first cell is the code span `name`, and some cell of it is no delimiter. */
  ghost predicate NamesInText(text: string, name: string) {
    exists cells :: HasCells(text, cells) && SpellsTask(cells[0], name) && HasPlainCell(cells)
  }

  ghost predicate HasPlainCell(cells: seq<string>) {
    exists i :: 0 <= i < |cells| && !IsDelimiterText(cells[i])
  }

  lemma RowNames(text: string, name: string)
    ensures NamesInText(text, name) <==> var line := LineOf(text); line.Row? && !line.delimiter && line.name == Some(name)
  {
    var line := LineOf(text);
    LineReadsText(text);
    if line.Row? {
      var cells :| HasCells(text, cells) && IsRowOf(cells, line.width, line.delimiter, line.name);
      CellsIff(text, cells);
      forall other | HasCells(text, other)
        ensures other == cells
      {
        CellsIff(text, other);
      }
    }
  }

  /** A row of a table names a task exactly if its text does. */
  lemma NamesIff(body: string, r: nat, name: string)
    requires r < |Lines(body)|
    ensures Names(Lines(body), r, name)
       <==> InTable(Lines(body), r) && OpenFence(Lines(body), r).None? && NamesInText(Split(body, '\n')[r], name)
  {
    RowNames(Split(body, '\n')[r], name);
  }

  // ---------------------------------------------------------- the machine

  lemma TableOpens(lines: seq<Line>, i: nat)
    requires 0 < i < |lines| && IsTableLine(lines, i)
    ensures InTable(lines, i + 1)
            <==> InTable(lines, i)
                 || (IsHeader(lines, i - 1) && !IsHeader(lines, i) && lines[i - 1].width == lines[i].width)
  {
    if InTable(lines, i) {
      var h :| 0 <= h < i && Opened(lines, h, i);
      assert Opened(lines, h, i + 1);
    }
    if InTable(lines, i + 1) {
      var h :| 0 <= h < i + 1 && Opened(lines, h, i + 1);
      assert h + 1 < i ==> Opened(lines, h, i);
    }
    if IsHeader(lines, i - 1) && !IsHeader(lines, i) && lines[i - 1].width == lines[i].width {
      assert Opened(lines, i - 1, i + 1);
    }
  }

  lemma TableEnds(lines: seq<Line>, i: nat)
    requires i < |lines| && !IsTableLine(lines, i)
    ensures !InTable(lines, i + 1)
  {
  }

  lemma NoTableAtStart(lines: seq<Line>)
    ensures !InTable(lines, 0) && (lines != [] ==> !InTable(lines, 1))
  {
  }

  /** The names on the rows before line `end`. */
  ghost predicate NamedBefore(lines: seq<Line>, end: nat, name: string)
    requires end <= |lines|
  {
    exists r :: 0 <= r < end && Names(lines, r, name)
  }

  lemma NamedNext(lines: seq<Line>, i: nat)
    requires i < |lines|
    ensures forall name :: NamedBefore(lines, i + 1, name) <==> NamedBefore(lines, i, name) || Names(lines, i, name)
  {
  }

  /** What `headerColumns` and `tableColumns` mean before line `i`. */
  ghost predicate Columns(lines: seq<Line>, i: nat, headerColumns: nat, tableColumns: nat)
    requires i <= |lines|
  {
    && (tableColumns > 0 <==> InTable(lines, i))
    && (tableColumns == 0 ==>
          if i > 0 && IsHeader(lines, i - 1) then headerColumns == lines[i - 1].width else headerColumns == 0)
  }

  lemma TableLineStep(lines: seq<Line>, i: nat, headerColumns: nat)
    requires i < |lines| && IsTableLine(lines, i) && lines[i].width >= 2 && Columns(lines, i, headerColumns, 0)
    ensures var Row(width, delimiter, _) := lines[i];
            Columns(lines, i + 1, if delimiter then 0 else width, if delimiter && width == headerColumns then headerColumns else 0)
  {
    if i > 0 {
      TableOpens(lines, i);
    } else {
      NoTableAtStart(lines);
    }
  }

  /** A fence line, or a line without enough cells, ends every table. */
  lemma OtherStep(lines: seq<Line>, i: nat)
    requires i < |lines| && !IsTableLine(lines, i)
    ensures Columns(lines, i + 1, 0, 0) && forall name :: !Names(lines, i, name)
  {
    TableEnds(lines, i);
  }

  /** Inside a block of code both counters are zero. */
  lemma NothingInside(lines: seq<Line>, i: nat, headerColumns: nat, tableColumns: nat)
    requires i < |lines| && OpenFence(lines, i).Some? && Columns(lines, i, headerColumns, tableColumns)
    ensures headerColumns == 0 && tableColumns == 0
  {
    forall h | 0 <= h < i
      ensures !Opened(lines, h, i)
    {
      assert !IsTableLine(lines, i - 1);
    }
  }

  lemma RowStep(lines: seq<Line>, i: nat, headerColumns: nat, tableColumns: nat)
    requires i < |lines| && IsTableLine(lines, i) && tableColumns > 0 && Columns(lines, i, headerColumns, tableColumns)
    ensures Columns(lines, i + 1, headerColumns, tableColumns)
    ensures forall name :: Names(lines, i, name) <==> !lines[i].delimiter && lines[i].name == Some(name)
  {
    assert i > 0;
    TableOpens(lines, i);
  }

  /** The marker and the length that the machine remembers of the open fence. */
  function MarkerAt(lines: seq<Line>, i: nat): Option<(char, nat)>
    requires i <= |lines|
  {
    var open := OpenFence(lines, i);
    if open.None? then None
    else
      var fence := lines[open.value].fence;
      Some((fence.marker, fence.length))
  }

  lemma FenceStep(lines: seq<Line>, i: nat)
    requires i < |lines|
    ensures var before := MarkerAt(lines, i);
            MarkerAt(lines, i + 1)
            == if !lines[i].FenceLine? then before
               else if before.None? then Some((lines[i].fence.marker, lines[i].fence.length))
               else if lines[i].fence.marker == before.value.0 && lines[i].fence.length >= before.value.1
                       && IsBlank(lines[i].fence.rest) then None
               else before
  {
  }

  ghost predicate Collected(lines: seq<Line>, i: nat, names: set<string>)
    requires i <= |lines|
  {
    forall name :: name in names <==> NamedBefore(lines, i, name)
  }

  lemma CollectedNext(lines: seq<Line>, i: nat, names: set<string>, found: Option<string>)
    requires i < |lines| && Collected(lines, i, names) && forall name :: Names(lines, i, name) <==> found == Some(name)
    ensures Collected(lines, i + 1, names + if found.Some? then {found.value} else {})
  {
    NamedNext(lines, i);
  }

  /** What the patterns make of a line. */
  method Classify(text: string) returns (line: Line)
    ensures line == LineOf(text) && (line.Row? ==> line.width >= 2)
  {
    var fence := FenceOf(text);
    if fence.Some? { return FenceLine(fence.value); }
    var cells := Cells(text);
    if cells.None? { return Other; }
    return Row(|cells.value|, IsDelimiter(cells.value), CodeSpan(cells.value[0]));
  }

  /** The variables of the loop. */
  datatype Progress = Progress(fence: Option<(char, nat)>, headerColumns: nat, tableColumns: nat, cataloged: set<string>)

  ghost predicate Tracks(lines: seq<Line>, i: nat, progress: Progress)
    requires i <= |lines|
  {
    && progress.fence == MarkerAt(lines, i) && Columns(lines, i, progress.headerColumns, progress.tableColumns)
    && Collected(lines, i, progress.cataloged)
  }

  /** A line that belongs to no table resets the counters, and names nothing. */
  lemma NoTableLine(lines: seq<Line>, i: nat, before: Progress, fence: Option<(char, nat)>)
    requires i < |lines| && !IsTableLine(lines, i) && Tracks(lines, i, before) && fence == MarkerAt(lines, i + 1)
    ensures Tracks(lines, i + 1, Progress(fence, 0, 0, before.cataloged))
  {
    OtherStep(lines, i);
    CollectedNext(lines, i, before.cataloged, None);
    assert before.cataloged + {} == before.cataloged;
  }

  /** A fence line: it opens a block, closes the open one, or is part of it. */
  method VisitFence(fence: Fence, before: Progress, ghost lines: seq<Line>, ghost i: nat) returns (next: Progress)
    requires i < |lines| && lines[i] == FenceLine(fence) && Tracks(lines, i, before)
    ensures Tracks(lines, i + 1, next)
  {
    var open := before.fence;
    FenceStep(lines, i);
    if open.None? {
      open := Some((fence.marker, fence.length));
    } else if fence.marker == open.value.0 && fence.length >= open.value.1 && IsBlank(fence.rest) {
      open := None;
    }
    NoTableLine(lines, i, before, open);
    return Progress(open, 0, 0, before.cataloged);
  }

  /** A table line: outside a table it may be a header or open one, inside it may name a task. */
  method VisitCells(line: Line, headerColumns: nat, tableColumns: nat, ghost lines: seq<Line>, ghost i: nat)
    returns (nextHeader: nat, nextTable: nat, name: Option<string>)
    requires i < |lines| && lines[i] == line && IsTableLine(lines, i) && line.width >= 2
    requires Columns(lines, i, headerColumns, tableColumns)
    ensures Columns(lines, i + 1, nextHeader, nextTable)
    ensures forall named :: Names(lines, i, named) <==> name == Some(named)
  {
    if tableColumns == 0 {
      TableLineStep(lines, i, headerColumns);
      nextTable := if line.delimiter && line.width == headerColumns then headerColumns else 0;
      return if line.delimiter then 0 else line.width, nextTable, None;
    }
    RowStep(lines, i, headerColumns, tableColumns);
    return headerColumns, tableColumns, if line.delimiter then None else line.name;
  }

  method VisitRow(line: Line, before: Progress, ghost lines: seq<Line>, ghost i: nat) returns (next: Progress)
    requires i < |lines| && lines[i] == line && IsTableLine(lines, i) && line.width >= 2 && Tracks(lines, i, before)
    ensures Tracks(lines, i + 1, next)
  {
    var headerColumns, tableColumns, name := VisitCells(line, before.headerColumns, before.tableColumns, lines, i);
    FenceStep(lines, i);
    CollectedNext(lines, i, before.cataloged, name);
    return Progress(before.fence, headerColumns, tableColumns, before.cataloged + if name.Some? then {name.value} else {});
  }

  lemma InsideBlock(lines: seq<Line>, i: nat, before: Progress)
    requires i < |lines| && !lines[i].FenceLine? && Tracks(lines, i, before) && before.fence.Some?
    ensures Tracks(lines, i + 1, before)
  {
    FenceStep(lines, i);
    NothingInside(lines, i, before.headerColumns, before.tableColumns);
    NoTableLine(lines, i, before, before.fence);
  }

  method VisitLine(line: Line, before: Progress, ghost lines: seq<Line>, ghost i: nat) returns (next: Progress)
    requires i < |lines| && lines[i] == line && (line.Row? ==> line.width >= 2) && Tracks(lines, i, before)
    ensures Tracks(lines, i + 1, next)
  {
    if line.FenceLine? {
      next := VisitFence(line.fence, before, lines, i);
    } else if before.fence.Some? {
      InsideBlock(lines, i, before);
      next := before;
    } else if line.Other? {
      FenceStep(lines, i);
      NoTableLine(lines, i, before, None);
      next := Progress(None, 0, 0, before.cataloged);
    } else {
      next := VisitRow(line, before, lines, i);
    }
  }

  lemma TracksStart(lines: seq<Line>)
    ensures Tracks(lines, 0, Progress(None, 0, 0, {}))
  {
    NoTableAtStart(lines);
  }

  /** Collects a name exactly when some row of a table names it in its first cell. */
  method CollectCatalogTasks(body: string) returns (cataloged: set<string>)
    ensures Collected(Lines(body), |Lines(body)|, cataloged)
  {
    var texts := Split(body, '\n');
    ghost var lines := Lines(body);
    var progress := Progress(None, 0, 0, {});
    TracksStart(lines);
    for i := 0 to |texts|
      invariant Tracks(lines, i, progress)
    {
      var line := Classify(texts[i]);
      assert lines[i] == line;
      progress := VisitLine(line, progress, lines, i);
    }
    cataloged := progress.cataloged;
  }
}
