/** Block quote prefixes of Markdown lines. */
module BlockQuotes {
  import opened Text
  import opened FenceLines

  /** The length of a match of `^ {0,3}>([ \t]?)`, or 0. */
  function MarkerLength(line: string): (n: nat)
    ensures n <= |line|
  {
    var indent := Run(line, ' ');
    if indent > 3 || indent == |line| || line[indent] != '>' then 0
    else if indent + 1 < |line| && (line[indent + 1] == ' ' || line[indent + 1] == '\t') then indent + 2
    else indent + 1
  }

  /** A line starts with a marker exactly if it is at most three spaces, `>` and a rest; one blank after it belongs to it. */
  lemma MarkerShape(indent: nat, rest: string)
    ensures var line := Repeat(' ', indent) + (">" + rest);
            MarkerLength(line)
            == if indent > 3 then 0 else if rest != "" && (rest[0] == ' ' || rest[0] == '\t') then indent + 2 else indent + 1
  {
    RunOf(' ', indent, ">" + rest);
    var line := Repeat(' ', indent) + (">" + rest);
    assert line[indent] == '>' && line[indent..] == ">" + rest;
    assert rest != "" ==> line[indent + 1] == rest[0];
  }

  lemma MarkerHasShape(line: string)
    requires MarkerLength(line) > 0
    ensures exists indent: nat, rest :: indent <= 3 && line == Repeat(' ', indent) + (">" + rest)
  {
    var indent := Run(line, ' ');
    RunSplits(line, ' ');
    assert line[indent..] == ">" + line[indent + 1..];
  }

  datatype Quote = Quote(depth: nat, content: string)

  function QuoteOf(line: string): Quote
    decreases |line|
  {
    if MarkerLength(line) == 0 then Quote(0, line)
    else
      var inner := QuoteOf(line[MarkerLength(line)..]);
      Quote(inner.depth + 1, inner.content)
  }

  method SplitBlockquotePrefix(line: string) returns (quote: Quote)
    ensures quote == QuoteOf(line)
  {
    var rest, depth := line, 0;
    while MarkerLength(rest) > 0
      invariant QuoteOf(line) == Quote(depth + QuoteOf(rest).depth, QuoteOf(rest).content)
      decreases |rest|
    {
      depth := depth + 1;
      rest := rest[MarkerLength(rest)..];
    }
    return Quote(depth, rest);
  }

  function CountQuotes(text: string): nat {
    if text == "" then 0 else (if text[0] == '>' then 1 else 0) + CountQuotes(text[1..])
  }

  lemma {:induction false} CountQuotesAppend(a: string, b: string)
    ensures CountQuotes(a + b) == CountQuotes(a) + CountQuotes(b)
  {
    if a == "" {
      assert a + b == b;
    } else {
      CountQuotesAppend(a[1..], b);
      assert (a + b)[1..] == a[1..] + b;
    }
  }

  lemma {:induction false} NoQuotes(text: string)
    requires forall i :: 0 <= i < |text| ==> text[i] != '>'
    ensures CountQuotes(text) == 0
  {
    if text != "" { NoQuotes(text[1..]); }
  }

  lemma OneQuote(line: string)
    requires MarkerLength(line) > 0
    ensures CountQuotes(line[..MarkerLength(line)]) == 1
  {
    var n, indent := MarkerLength(line), Run(line, ' ');
    NoQuotes(line[..indent]);
    NoQuotes(line[indent + 1..n]);
    assert line[..n] == line[..indent] + ([line[indent]] + line[indent + 1..n]);
    CountQuotesAppend(line[..indent], [line[indent]] + line[indent + 1..n]);
    CountQuotesAppend([line[indent]], line[indent + 1..n]);
  }

  /** The text removed in front of the content. */
  function QuotePrefix(line: string): string
    decreases |line|
  {
    if MarkerLength(line) == 0 then "" else line[..MarkerLength(line)] + QuotePrefix(line[MarkerLength(line)..])
  }

  lemma PrefixStep(line: string, n: nat, inner: string, content: string)
    requires n <= |line| && line[n..] == inner + content
    ensures line == (line[..n] + inner) + content
  {
  }

  lemma {:induction false} PrefixAndContent(line: string)
    ensures line == QuotePrefix(line) + QuoteOf(line).content
    decreases |line|
  {
    var n := MarkerLength(line);
    if n == 0 {
      assert QuotePrefix(line) == "" && QuoteOf(line).content == line;
      assert "" + line == line;
    } else {
      PrefixAndContent(line[n..]);
      PrefixStep(line, n, QuotePrefix(line[n..]), QuoteOf(line[n..]).content);
    }
  }

  /** The depth counts exactly the markers removed. */
  lemma {:induction false} DepthCountsMarkers(line: string)
    ensures CountQuotes(QuotePrefix(line)) == QuoteOf(line).depth
    decreases |line|
  {
    var n := MarkerLength(line);
    if n > 0 {
      DepthCountsMarkers(line[n..]);
      OneQuote(line);
      CountQuotesAppend(line[..n], QuotePrefix(line[n..]));
    }
  }

  lemma {:induction false} ContentHasNoMarker(line: string)
    ensures MarkerLength(QuoteOf(line).content) == 0
    decreases |line|
  {
    if MarkerLength(line) > 0 {
      ContentHasNoMarker(line[MarkerLength(line)..]);
    }
  }
}
