/** Dotted paths into the structured result of a tool. */
module ResultPaths {
  import opened Text
  import opened JsonValues

  // ----------------------------------------------------------- digit texts

  /** `^\d+$` */
  predicate IsDecimal(s: string) {
    s != [] && forall i :: 0 <= i < |s| ==> IsDigit(s[i])
  }

  /** `Number(segment)` on digits */
  function Decimal(s: string): nat
    requires forall i :: 0 <= i < |s| ==> IsDigit(s[i])
  {
    if s == [] then 0 else assert IsDigit(s[|s| - 1]); 10 * Decimal(s[..|s| - 1]) + DigitOf(s[|s| - 1])
  }

  function DigitOf(c: char): (digit: nat)
    requires IsDigit(c)
    ensures digit < 10 && "0123456789"[digit] == c
  {
    c as int - '0' as int
  }

  /** The sum of the digits from place `i` on, each times its power of ten. */
  function PlaceValue(s: string, i: nat): nat
    requires i <= |s| && forall k :: 0 <= k < |s| ==> IsDigit(s[k])
    decreases |s| - i
  {
    if i == |s| then 0 else DigitOf(s[i]) * Power10(|s| - 1 - i) + PlaceValue(s, i + 1)
  }

  lemma {:induction false} PlaceValueNext(s: string, i: nat)
    requires s != [] && i < |s| && forall k :: 0 <= k < |s| ==> IsDigit(s[k])
    ensures PlaceValue(s, i) == 10 * PlaceValue(s[..|s| - 1], i) + DigitOf(s[|s| - 1])
    decreases |s| - i
  {
    var init := s[..|s| - 1];
    if i < |init| {
      PlaceValueNext(s, i + 1);
      var p := Power10(|init| - 1 - i);
      assert DigitOf(s[i]) * (10 * p) == 10 * (DigitOf(init[i]) * p);
    } else {
      assert PlaceValue(s, i + 1) == 0 && Power10(0) == 1;
    }
  }

  /** A digit text denotes the sum of its digits, each times the power of ten of its place. */
  lemma {:induction false} DecimalIsPlaceValue(s: string)
    requires forall k :: 0 <= k < |s| ==> IsDigit(s[k])
    ensures Decimal(s) == PlaceValue(s, 0)
  {
    if s != [] {
      DecimalIsPlaceValue(s[..|s| - 1]);
      PlaceValueNext(s, 0);
    }
  }

  // ------------------------------------------------------------ reading

  /** One step of a dotted path. */
  function Member(value: Value, segment: string): Value {
    if value.List? && IsDecimal(segment) then
      if Decimal(segment) < |value.items| then value.items[Decimal(segment)] else Undefined
    else if value.Record? && segment in value.fields then value.fields[segment]
    else Undefined
  }

  function ReadPath(value: Value, path: seq<string>): Option<Value> {
    if path == [] then Some(value)
    else if Member(value, path[0]) == Undefined then None
    else ReadPath(Member(value, path[0]), path[1..])
  }

  // ------------------------------------------------- what a path leads to

  /** The segment names a field of the record, or is the decimal place of an item of the list. */
  predicate IsStep(from: Value, segment: string, to: Value) {
    if from.Record? then segment in from.fields && from.fields[segment] == to
    else from.List? && IsDecimal(segment) && PlaceValue(segment, 0) < |from.items| && from.items[PlaceValue(segment, 0)] == to
  }

  /** The chain starts at `value`, takes one step for each segment, and meets nothing that is not there. */
  ghost predicate IsChain(chain: seq<Value>, value: Value, path: seq<string>) {
    && |chain| == |path| + 1 && chain[0] == value
    && forall i :: 0 <= i < |path| ==> IsLink(chain, path, i)
  }

  ghost predicate IsLink(chain: seq<Value>, path: seq<string>, i: nat)
    requires i < |path| && |chain| == |path| + 1
  {
    IsStep(chain[i], path[i], chain[i + 1]) && chain[i + 1] != Undefined
  }

  ghost predicate LeadsTo(value: Value, path: seq<string>, v: Value) {
    exists chain :: IsChain(chain, value, path) && chain[|path|] == v
  }

  lemma MemberIsStep(from: Value, segment: string, to: Value)
    requires to != Undefined
    ensures Member(from, segment) == to <==> IsStep(from, segment, to)
  {
    if from.List? && IsDecimal(segment) {
      DecimalIsPlaceValue(segment);
    }
  }

  lemma {:induction false} ReadFollowsChain(value: Value, path: seq<string>, chain: seq<Value>)
    requires IsChain(chain, value, path)
    ensures ReadPath(value, path) == Some(chain[|path|])
  {
    if path != [] {
      assert IsLink(chain, path, 0);
      MemberIsStep(value, path[0], chain[1]);
      forall i | 0 <= i < |path[1..]|
        ensures IsLink(chain[1..], path[1..], i)
      {
        assert IsLink(chain, path, i + 1);
      }
      ReadFollowsChain(chain[1], path[1..], chain[1..]);
    }
  }

  lemma {:induction false} ChainOfRead(value: Value, path: seq<string>) returns (chain: seq<Value>)
    requires ReadPath(value, path).Some?
    ensures IsChain(chain, value, path) && chain[|path|] == ReadPath(value, path).value
  {
    if path == [] {
      chain := [value];
    } else {
      var next := Member(value, path[0]);
      MemberIsStep(value, path[0], next);
      var rest := ChainOfRead(next, path[1..]);
      chain := [value] + rest;
      forall i | 0 <= i < |path|
        ensures IsLink(chain, path, i)
      {
        assert i > 0 ==> IsLink(rest, path[1..], i - 1);
      }
    }
  }

  /** Reading gives exactly what the path leads to. */
  lemma ReadIffLeads(value: Value, path: seq<string>, v: Value)
    ensures ReadPath(value, path) == Some(v) <==> LeadsTo(value, path, v)
  {
    if ReadPath(value, path) == Some(v) {
      var chain := ChainOfRead(value, path);
    }
    if chain :| IsChain(chain, value, path) && chain[|path|] == v {
      ReadFollowsChain(value, path, chain);
    }
  }

  /** The loop of `readPath`; `None` is the exception for a missing path. */
  method FollowPath(value: Value, path: seq<string>) returns (r: Option<Value>)
    ensures r == ReadPath(value, path)
    ensures forall v :: r == Some(v) <==> LeadsTo(value, path, v)
  {
    var current := value;
    for i := 0 to |path|
      invariant ReadPath(value, path) == ReadPath(current, path[i..])
    {
      assert path[i..][1..] == path[i + 1..];
      current := Member(current, path[i]);
      if current == Undefined {
        ReadIffEveryLead(value, path);
        return None;
      }
    }
    ReadIffEveryLead(value, path);
    r := Some(current);
  }

  lemma ReadIffEveryLead(value: Value, path: seq<string>)
    ensures forall v :: ReadPath(value, path) == Some(v) <==> LeadsTo(value, path, v)
  {
    forall v
      ensures ReadPath(value, path) == Some(v) <==> LeadsTo(value, path, v)
    {
      ReadIffLeads(value, path, v);
    }
  }
}
