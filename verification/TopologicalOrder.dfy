/** The Kahn loop of the workflow compiler: a deterministic order, or the nodes a cycle blocks. */
module TopologicalOrder {
  import opened Text
  import opened WorkflowModel

  /** Each node id with the ids it depends on. */
  type Graph = map<string, set<string>>

  // ------------------------------------------------------------- vocabulary

  ghost predicate Distinct(s: seq<string>) {
    forall i, j :: 0 <= i < j < |s| ==> s[i] != s[j]
  }

  /** `order` lists every node once, dependencies first. */
  ghost predicate IsTopological(g: Graph, order: seq<string>) {
    && Distinct(order)
    && Elements(order) == g.Keys
    && DependenciesFirst(g, order)
  }

  ghost predicate DependenciesFirst(g: Graph, order: seq<string>) {
    forall i :: 0 <= i < |order| ==> PlacedAfterDependencies(g, order, i)
  }

  ghost predicate PlacedAfterDependencies(g: Graph, order: seq<string>, i: nat)
    requires i < |order|
  {
    order[i] in g && g[order[i]] <= Elements(order[..i])
  }

  /** `a` equals `b` or is smaller at the first place where they differ. */
  ghost predicate LexAtMost(a: seq<string>, b: seq<string>) {
    a == b || exists k: nat :: DiffersBelow(a, b, k)
  }

  ghost predicate DiffersBelow(a: seq<string>, b: seq<string>, k: nat) {
    k < |a| && k < |b| && a[..k] == b[..k] && Less(a[k], b[k])
  }

  ghost predicate IsLexLeastOrder(g: Graph, order: seq<string>) {
    IsTopological(g, order) && forall other :: IsTopological(g, other) ==> LexAtMost(order, other)
  }

  /** Each element of `p` is a dependency of the one before it. */
  ghost predicate IsPath(g: Graph, p: seq<string>) {
    && |p| >= 1
    && (forall i :: 0 <= i < |p| ==> p[i] in g)
    && forall i :: 0 <= i < |p| - 1 ==> p[i + 1] in g[p[i]]
  }

  ghost predicate OnCycle(g: Graph, n: string) {
    exists p :: IsPath(g, p) && |p| >= 2 && p[0] == n && p[|p| - 1] == n
  }

  /** A dependency path of `n`, possibly empty, ends on a cycle. */
  ghost predicate ReachesCycle(g: Graph, n: string) {
    exists p :: IsPath(g, p) && p[0] == n && OnCycle(g, p[|p| - 1])
  }

  ghost predicate HasCycle(g: Graph) {
    exists n :: OnCycle(g, n)
  }

  ghost predicate Closed(g: Graph) {
    forall n :: n in g ==> g[n] <= g.Keys
  }

  // --------------------------------------------- greedy orders are least

  /** Nodes not yet in `prefix` whose dependencies all are. */
  ghost function Available(g: Graph, prefix: set<string>): set<string> {
    set n | n in g && n !in prefix && g[n] <= prefix
  }

  /** Every element was the least available one when it was chosen. */
  ghost predicate IsGreedy(g: Graph, order: seq<string>) {
    forall i :: 0 <= i < |order| ==> ChosenLeast(g, order, i)
  }

  ghost predicate ChosenLeast(g: Graph, order: seq<string>, i: nat)
    requires i < |order|
  {
    IsLeast(order[i], Available(g, Elements(order[..i])))
  }

  lemma GreedyIsLexLeast(g: Graph, order: seq<string>, other: seq<string>)
    requires IsTopological(g, order) && IsGreedy(g, order) && IsTopological(g, other)
    ensures LexAtMost(order, other)
  {
    SameLength(g, order, other);
    if order != other {
      var k := FirstDifference(order, other);
      assert other[..k] == order[..k];
      assert other[k] !in other[..k];
      assert PlacedAfterDependencies(g, other, k);
      assert ChosenLeast(g, order, k);
      assert other[k] in Available(g, Elements(order[..k]));
      assert DiffersBelow(order, other, k);
    }
  }

  lemma SameLength(g: Graph, a: seq<string>, b: seq<string>)
    requires IsTopological(g, a) && IsTopological(g, b)
    ensures |a| == |b|
  {
    DistinctIffCounted(a);
    DistinctIffCounted(b);
  }

  lemma {:induction false} FirstDifference(a: seq<string>, b: seq<string>) returns (k: nat)
    requires |a| == |b| && a != b
    ensures k < |a| && a[..k] == b[..k] && a[k] != b[k]
  {
    k := 0;
    while k < |a| && a[k] == b[k]
      invariant k <= |a| && a[..k] == b[..k]
    {
      k := k + 1;
    }
  }

  /** There is only one least order, so it cannot depend on how the nodes were listed. */
  lemma LexLeastOrderIsUnique(g: Graph, a: seq<string>, b: seq<string>)
    requires IsLexLeastOrder(g, a) && IsLexLeastOrder(g, b)
    ensures a == b
  {
    if a != b {
      var i: nat :| DiffersBelow(a, b, i);
      var j: nat :| DiffersBelow(b, a, j);
      LessIsAsymmetric(a[i], b[i]);
      LessIsAsymmetric(b[j], a[j]);
    }
  }

  // --------------------------------------------------------------- cycles

  lemma {:induction false} PathDescends(g: Graph, order: seq<string>, p: seq<string>, k: nat, start: nat)
    returns (at: nat)
    requires DependenciesFirst(g, order) && IsPath(g, p) && k < |p|
    requires start < |order| && order[start] == p[0]
    ensures at + k <= start && order[at] == p[k]
  {
    if k == 0 {
      at := start;
    } else {
      var before := PathDescends(g, order, p, k - 1, start);
      assert p[k - 1 + 1] in g[p[k - 1]];
      assert PlacedAfterDependencies(g, order, before);
      assert p[k] in Elements(order[..before]);
      at :| 0 <= at < before && order[..before][at] == p[k];
    }
  }

  /** No node that an order with dependencies first reaches has a path into a cycle. */
  lemma OrderedReachesNoCycle(g: Graph, order: seq<string>, n: string)
    requires Distinct(order) && DependenciesFirst(g, order) && n in order
    ensures !ReachesCycle(g, n)
  {
    if ReachesCycle(g, n) {
      var p :| IsPath(g, p) && p[0] == n && OnCycle(g, p[|p| - 1]);
      var start: nat :| start < |order| && order[start] == n;
      var onCycle := PathDescends(g, order, p, |p| - 1, start);
      var c := p[|p| - 1];
      var q :| IsPath(g, q) && |q| >= 2 && q[0] == c && q[|q| - 1] == c;
      var again := PathDescends(g, order, q, |q| - 1, onCycle);
      assert false;
    }
  }

  /** From inside a set where every node has a dependency in the set, one can walk any distance. */
  lemma {:induction false} WalkInside(g: Graph, stuck: set<string>, n: string, steps: nat) returns (p: seq<string>)
    requires stuck <= g.Keys && n in stuck
    requires forall m :: m in stuck ==> g[m] * stuck != {}
    ensures |p| == steps + 1 && p[0] == n && IsPath(g, p) && Elements(p) <= stuck
  {
    if steps == 0 {
      p := [n];
    } else {
      var init := WalkInside(g, stuck, n, steps - 1);
      var last := init[steps - 1];
      assert last in Elements(init);
      var next :| next in g[last] * stuck;
      p := init + [next];
      assert forall i :: 0 <= i < |init| ==> p[i] == init[i];
      forall x | x in Elements(p)
        ensures x in stuck
      {
        assert x in init ==> x in Elements(init);
      }
    }
  }

  /** Pigeonhole: a sequence longer than the set it draws from repeats an element. */
  lemma LongSequenceRepeats(s: seq<string>, from: set<string>) returns (i: nat, j: nat)
    requires Elements(s) <= from && |s| > |from|
    ensures i < j < |s| && s[i] == s[j]
  {
    if Distinct(s) {
      DistinctIffCounted(s);
      SubsetCount(Elements(s), from);
      assert false;
    }
    i, j :| 0 <= i < j < |s| && s[i] == s[j];
  }

  lemma PathSlice(g: Graph, p: seq<string>, i: nat, j: nat)
    requires IsPath(g, p) && i < j <= |p|
    ensures IsPath(g, p[i..j])
  {
    var q := p[i..j];
    forall k | 0 <= k < |q| - 1
      ensures q[k + 1] in g[q[k]]
    {
      assert p[(i + k) + 1] in g[p[i + k]];
    }
  }

  lemma StuckReachesCycle(g: Graph, stuck: set<string>, n: string)
    requires stuck <= g.Keys && n in stuck
    requires forall m :: m in stuck ==> g[m] * stuck != {}
    ensures ReachesCycle(g, n)
  {
    var p := WalkInside(g, stuck, n, |stuck|);
    var i, j := LongSequenceRepeats(p, stuck);
    RepeatIsCycle(g, p, i, j);
    PathSlice(g, p, 0, i + 1);
    var lead := p[0..i + 1];
    assert lead[0] == n && lead[|lead| - 1] == p[i];
  }

  lemma RepeatIsCycle(g: Graph, p: seq<string>, i: nat, j: nat)
    requires IsPath(g, p) && i < j < |p| && p[i] == p[j]
    ensures OnCycle(g, p[i])
  {
    PathSlice(g, p, i, j + 1);
    var loop := p[i..j + 1];
    assert loop[0] == p[i] && loop[|loop| - 1] == p[j];
  }

  /** What a maximal order with dependencies first leaves out is exactly what reaches a cycle. */
  lemma LeftOverReachesCycle(g: Graph, order: seq<string>, n: string)
    requires Closed(g) && Distinct(order) && DependenciesFirst(g, order)
    requires Available(g, Elements(order)) == {} && n in g
    ensures n !in order <==> ReachesCycle(g, n)
  {
    if n in order {
      OrderedReachesNoCycle(g, order, n);
    } else {
      var stuck := g.Keys - Elements(order);
      forall m | m in stuck
        ensures g[m] * stuck != {}
      {
        assert m !in Available(g, Elements(order));
        var d :| d in g[m] && d !in Elements(order);
        assert d in g[m] * stuck;
      }
      StuckReachesCycle(g, stuck, n);
    }
  }

  /** An order exists exactly when no node reaches a cycle. */
  lemma CycleIffReached(g: Graph)
    ensures HasCycle(g) <==> exists n :: n in g && ReachesCycle(g, n)
  {
    if HasCycle(g) {
      var n :| OnCycle(g, n);
      assert IsPath(g, [n]) && [n][0] == n;
      assert ReachesCycle(g, n);
    }
  }

  // -------------------------------------------------------------- the loop

  ghost predicate DistinctIds(nodes: seq<CompiledNode>) {
    forall i, j :: 0 <= i < j < |nodes| ==> nodes[i].id != nodes[j].id
  }

  ghost function GraphOf(nodes: seq<CompiledNode>): Graph
    requires DistinctIds(nodes)
  {
    map i | 0 <= i < |nodes| :: nodes[i].id := Elements(nodes[i].dependencies)
  }

  /** Puts `value` before the first larger element. */
  method InsertSorted(values: seq<string>, value: string) returns (r: seq<string>)
    requires StrictlySorted(values) && value !in values
    ensures StrictlySorted(r) && Elements(r) == Elements(values) + {value}
  {
    var index := 0;
    while index < |values| && !Less(value, values[index])
      invariant 0 <= index <= |values|
      invariant forall k :: 0 <= k < index ==> Less(values[k], value)
    {
      LessIsTotal(value, values[index]);
      index := index + 1;
    }
    r := values[..index] + [value] + values[index..];
    InsertionIsSorted(values, value, index);
  }

  lemma InsertionIsSorted(values: seq<string>, value: string, index: nat)
    requires StrictlySorted(values) && index <= |values|
    requires forall k :: 0 <= k < index ==> Less(values[k], value)
    requires index < |values| ==> Less(value, values[index])
    ensures StrictlySorted(values[..index] + [value] + values[index..])
    ensures Elements(values[..index] + [value] + values[index..]) == Elements(values) + {value}
  {
    var r := values[..index] + [value] + values[index..];
    forall j | index < j < |r|
      ensures Less(value, r[j])
    {
      assert r[j] == values[j - 1];
      if index < j - 1 {
        assert InOrder(values, index, j - 1);
        LessIsTransitive(value, values[index], values[j - 1]);
      }
    }
    forall i, j | 0 <= i < j < |r|
      ensures InOrder(r, i, j)
    {
      if i != index && j != index {
        assert InOrder(values, if i < index then i else i - 1, if j < index then j else j - 1);
      }
    }
    assert values == values[..index] + values[index..];
  }

  /** `g` holds exactly the listed nodes with their dependencies. */
  ghost predicate Represents(g: Graph, nodes: seq<CompiledNode>) {
    && (forall i :: 0 <= i < |nodes| ==> nodes[i].id in g && g[nodes[i].id] == Elements(nodes[i].dependencies))
    && (forall n :: n in g ==> exists i :: 0 <= i < |nodes| && nodes[i].id == n)
  }

  /** Dependants of each node and number of dependencies of each node. */
  method CountDependencies(nodes: seq<CompiledNode>, ghost g: Graph)
    returns (dependants: map<string, seq<string>>, indegree: map<string, int>)
    requires DistinctIds(nodes) && Represents(g, nodes) && Closed(g)
    requires forall i :: 0 <= i < |nodes| ==> StrictlySorted(nodes[i].dependencies)
    ensures dependants.Keys == g.Keys && indegree.Keys == g.Keys
    ensures forall n :: n in indegree ==> indegree[n] == |g[n]|
    ensures AreDependants(g, dependants)
  {
    var unsorted;
    unsorted, indegree := FillTables(nodes, g.Keys);
    TablesComplete(nodes, g, unsorted, indegree);
    dependants := SortLists(unsorted);
  }

  ghost predicate WellListed(node: CompiledNode, ids: set<string>) {
    node.id in ids && Elements(node.dependencies) <= ids && StrictlySorted(node.dependencies)
  }

  ghost predicate AllWellListed(nodes: seq<CompiledNode>, ids: set<string>) {
    && (forall i :: 0 <= i < |nodes| ==> WellListed(nodes[i], ids))
    && forall n :: n in ids ==> exists i :: 0 <= i < |nodes| && nodes[i].id == n
  }

  method FillTables(nodes: seq<CompiledNode>, ghost ids: set<string>)
    returns (unsorted: map<string, seq<string>>, indegree: map<string, int>)
    requires DistinctIds(nodes)
    requires AllWellListed(nodes, ids)
    ensures unsorted.Keys == ids && indegree.Keys == ids
    ensures CountsFirst(nodes, |nodes|, indegree) && ListsAllFirst(nodes, |nodes|, unsorted)
  {
    unsorted, indegree := EmptyTables(nodes, ids);
    for i := 0 to |nodes|
      invariant unsorted.Keys == ids && indegree.Keys == ids
      invariant CountsFirst(nodes, i, indegree) && ListsAllFirst(nodes, i, unsorted)
    {
      assert WellListed(nodes[i], ids);
      unsorted, indegree := RecordNode(nodes, i, unsorted, indegree);
    }
  }

  method RecordNode(nodes: seq<CompiledNode>, i: nat, unsorted: map<string, seq<string>>, indegree: map<string, int>)
    returns (unsorted': map<string, seq<string>>, indegree': map<string, int>)
    requires DistinctIds(nodes) && i < |nodes| && unsorted.Keys == indegree.Keys
    requires WellListed(nodes[i], indegree.Keys)
    requires CountsFirst(nodes, i, indegree) && ListsAllFirst(nodes, i, unsorted)
    ensures unsorted'.Keys == indegree'.Keys == indegree.Keys
    ensures CountsFirst(nodes, i + 1, indegree') && ListsAllFirst(nodes, i + 1, unsorted')
  {
    CountNext(nodes, i, indegree);
    indegree' := indegree[nodes[i].id := |nodes[i].dependencies|];
    unsorted' := RecordDependencies(nodes, i, unsorted);
  }

  function SortLists(lists: map<string, seq<string>>): (sorted: map<string, seq<string>>)
    ensures sorted.Keys == lists.Keys
  {
    map d | d in lists :: Ascending(Elements(lists[d]))
  }

  ghost predicate AreDependants(g: Graph, lists: map<string, seq<string>>) {
    forall d :: d in lists ==> IsDependantList(g, d, lists[d])
  }

  lemma TablesComplete(nodes: seq<CompiledNode>, g: Graph, unsorted: map<string, seq<string>>, indegree: map<string, int>)
    requires Represents(g, nodes)
    requires forall i :: 0 <= i < |nodes| ==> StrictlySorted(nodes[i].dependencies)
    requires indegree.Keys == g.Keys && CountsFirst(nodes, |nodes|, indegree)
    requires ListsAllFirst(nodes, |nodes|, unsorted)
    ensures forall n :: n in indegree ==> indegree[n] == |g[n]|
    ensures AreDependants(g, SortLists(unsorted))
  {
    forall n | n in indegree
      ensures indegree[n] == |g[n]|
    {
      var k :| 0 <= k < |nodes| && nodes[k].id == n;
      SortedCount(nodes[k].dependencies);
    }
    forall d | d in unsorted
      ensures IsDependantList(g, d, Ascending(Elements(unsorted[d])))
    {
      ListsAll(nodes, g, d, unsorted[d]);
    }
  }

  ghost predicate CountsFirst(nodes: seq<CompiledNode>, count: nat, indegree: map<string, int>)
    requires count <= |nodes|
  {
    forall k :: 0 <= k < count ==> nodes[k].id in indegree && indegree[nodes[k].id] == |nodes[k].dependencies|
  }

  lemma CountNext(nodes: seq<CompiledNode>, i: nat, indegree: map<string, int>)
    requires DistinctIds(nodes) && i < |nodes| && CountsFirst(nodes, i, indegree)
    ensures CountsFirst(nodes, i + 1, indegree[nodes[i].id := |nodes[i].dependencies|])
  {
  }

  method EmptyTables(nodes: seq<CompiledNode>, ghost ids: set<string>)
    returns (lists: map<string, seq<string>>, counts: map<string, int>)
    requires AllWellListed(nodes, ids)
    ensures lists.Keys == ids && counts.Keys == ids
    ensures ListsAllFirst(nodes, 0, lists)
  {
    lists, counts := map[], map[];
    for i := 0 to |nodes|
      invariant lists.Keys == counts.Keys <= ids
      invariant forall k :: 0 <= k < i ==> nodes[k].id in lists
      invariant forall d :: d in lists ==> lists[d] == []
    {
      lists := lists[nodes[i].id := []];
      counts := counts[nodes[i].id := 0];
    }
  }

  /** Adds one node to the lists of the nodes it depends on. */
  method RecordDependencies(nodes: seq<CompiledNode>, i: nat, before: map<string, seq<string>>)
    returns (dependants: map<string, seq<string>>)
    requires i < |nodes| && StrictlySorted(nodes[i].dependencies)
    requires Elements(nodes[i].dependencies) <= before.Keys
    requires ListsAllFirst(nodes, i, before)
    ensures dependants.Keys == before.Keys
    ensures ListsAllFirst(nodes, i + 1, dependants)
  {
    var node := nodes[i];
    dependants := before;
    for j := 0 to |node.dependencies|
      invariant dependants.Keys == before.Keys
      invariant forall d :: d in before && d !in node.dependencies[..j] ==> dependants[d] == before[d]
      invariant forall d :: d in before && d in node.dependencies[..j] ==> dependants[d] == before[d] + [node.id]
    {
      var dependency := node.dependencies[j];
      assert dependency in Elements(node.dependencies);
      if dependency in node.dependencies[..j] {
        var k :| 0 <= k < j && node.dependencies[k] == dependency;
        SortedIsDistinct(node.dependencies, k, j);
      }
      dependants := dependants[dependency := dependants[dependency] + [node.id]];
    }
    assert node.dependencies[..|node.dependencies|] == node.dependencies;
    forall d | d in before
      ensures ListsFirst(nodes, i + 1, d, dependants[d])
    {
      if d in node.dependencies {
        AppendDependant(nodes, i, d, before[d]);
      } else {
        SkipNode(nodes, i, d, before[d]);
      }
    }
  }

  ghost predicate IsDependantList(g: Graph, d: string, list: seq<string>) {
    StrictlySorted(list) && forall n :: n in list <==> n in g && d in g[n]
  }

  /** `list` holds the first `count` nodes that depend on `d`. */
  ghost predicate ListsFirst(nodes: seq<CompiledNode>, count: nat, d: string, list: seq<string>)
    requires count <= |nodes|
  {
    forall n :: n in list <==> exists k :: 0 <= k < count && nodes[k].id == n && d in nodes[k].dependencies
  }

  ghost predicate ListsAllFirst(nodes: seq<CompiledNode>, count: nat, lists: map<string, seq<string>>)
    requires count <= |nodes|
  {
    forall d :: d in lists ==> ListsFirst(nodes, count, d, lists[d])
  }

  lemma AppendDependant(nodes: seq<CompiledNode>, i: nat, d: string, list: seq<string>)
    requires i < |nodes| && ListsFirst(nodes, i, d, list) && d in nodes[i].dependencies
    ensures ListsFirst(nodes, i + 1, d, list + [nodes[i].id])
  {
    forall n
      ensures n in list + [nodes[i].id] <==> exists k :: 0 <= k < i + 1 && nodes[k].id == n && d in nodes[k].dependencies
    {
      assert n in list + [nodes[i].id] <==> n in list || n == nodes[i].id;
    }
  }

  lemma SkipNode(nodes: seq<CompiledNode>, i: nat, d: string, list: seq<string>)
    requires i < |nodes| && ListsFirst(nodes, i, d, list) && d !in nodes[i].dependencies
    ensures ListsFirst(nodes, i + 1, d, list)
  {
  }

  lemma ListsAll(nodes: seq<CompiledNode>, g: Graph, d: string, list: seq<string>)
    requires Represents(g, nodes) && ListsFirst(nodes, |nodes|, d, list)
    ensures IsDependantList(g, d, Ascending(Elements(list)))
  {
    forall n
      ensures n in Ascending(Elements(list)) <==> n in g && d in g[n]
    {
      assert n in Ascending(Elements(list)) <==> n in Elements(Ascending(Elements(list)));
      if n in g && d in g[n] {
        var k :| 0 <= k < |nodes| && nodes[k].id == n;
        assert d in nodes[k].dependencies;
      }
    }
  }

  lemma SortedCount(s: seq<string>)
    requires StrictlySorted(s)
    ensures |Elements(s)| == |s|
  {
    forall i, j | 0 <= i < j < |s|
      ensures s[i] != s[j]
    {
      SortedIsDistinct(s, i, j);
    }
    DistinctIffCounted(s);
  }

  /** Dependencies of `n` that are not ordered yet. */
  ghost function Waiting(g: Graph, n: string, ordered: seq<string>): set<string>
    requires n in g
  {
    g[n] - Elements(ordered)
  }

  ghost predicate CountsWaiting(g: Graph, ordered: seq<string>, indegree: map<string, int>) {
    indegree.Keys == g.Keys && forall n :: n in g ==> indegree[n] == |Waiting(g, n, ordered)|
  }

  /** One less dependency for every dependant; those with none left become ready. */
  method Release(dependants: seq<string>, before: map<string, int>, waiting: seq<string>)
    returns (indegree: map<string, int>, ready: seq<string>)
    requires StrictlySorted(dependants) && Elements(dependants) <= before.Keys
    requires StrictlySorted(waiting) && Elements(dependants) !! Elements(waiting)
    ensures indegree == map n | n in before :: if n in dependants then before[n] - 1 else before[n]
    ensures StrictlySorted(ready)
    ensures Elements(ready) == Elements(waiting) + Freed(dependants, before)
  {
    indegree, ready := before, waiting;
    for i := 0 to |dependants|
      invariant indegree.Keys == before.Keys
      invariant forall n :: n in before ==> indegree[n] == if n in dependants[..i] then before[n] - 1 else before[n]
      invariant StrictlySorted(ready)
      invariant Elements(ready) == Elements(waiting) + Freed(dependants[..i], before)
    {
      var dependant := dependants[i];
      NotYet(dependants, i);
      assert dependant in Elements(dependants);
      assert Elements(dependants[..i + 1]) == Elements(dependants[..i]) + {dependant};
      assert dependant !in Elements(ready);
      var remaining := indegree[dependant] - 1;
      indegree := indegree[dependant := remaining];
      if remaining == 0 {
        ready := InsertSorted(ready, dependant);
      }
      assert Freed(dependants[..i + 1], before)
          == Freed(dependants[..i], before) + if remaining == 0 then {dependant} else {};
    }
    assert dependants[..|dependants|] == dependants;
  }

  ghost function Freed(dependants: seq<string>, indegree: map<string, int>): set<string> {
    set n | n in dependants && n in indegree && indegree[n] == 1
  }

  lemma NotYet(s: seq<string>, i: nat)
    requires StrictlySorted(s) && i < |s|
    ensures s[i] !in s[..i]
  {
    if s[i] in s[..i] {
      var k :| 0 <= k < i && s[..i][k] == s[i];
      SortedIsDistinct(s, k, i);
    }
  }

  lemma WaitingAfter(g: Graph, ordered: seq<string>, id: string, n: string)
    requires n in g && id !in ordered
    ensures Waiting(g, n, ordered + [id]) == Waiting(g, n, ordered) - {id}
    ensures |Waiting(g, n, ordered + [id])| == |Waiting(g, n, ordered)| - if id in g[n] then 1 else 0
  {
    assert Elements(ordered + [id]) == Elements(ordered) + {id};
  }

  lemma OrderedWaitsForNothing(g: Graph, ordered: seq<string>, n: string)
    requires DependenciesFirst(g, ordered) && n in ordered
    ensures n in g && Waiting(g, n, ordered) == {}
  {
    var i :| 0 <= i < |ordered| && ordered[i] == n;
    assert PlacedAfterDependencies(g, ordered, i);
    assert Elements(ordered[..i]) <= Elements(ordered);
  }

  lemma AvailableIffWaitsForNothing(g: Graph, ordered: seq<string>, n: string)
    requires n in g
    ensures n in Available(g, Elements(ordered)) <==> n !in ordered && Waiting(g, n, ordered) == {}
  {
    if Waiting(g, n, ordered) == {} {
      forall x | x in g[n]
        ensures x in Elements(ordered)
      {
        assert x !in Waiting(g, n, ordered);
      }
    }
  }

  /** What one round of the loop does to the counts. */
  lemma CountsAfterRelease(g: Graph, ordered: seq<string>, id: string, dependants: seq<string>, indegree: map<string, int>,
                           after: map<string, int>)
    requires IsDependantList(g, id, dependants) && id !in ordered && CountsWaiting(g, ordered, indegree)
    requires after == map n | n in indegree :: if n in dependants then indegree[n] - 1 else indegree[n]
    ensures CountsWaiting(g, ordered + [id], after)
  {
    forall n | n in g
      ensures after[n] == |Waiting(g, n, ordered + [id])|
    {
      WaitingAfter(g, ordered, id, n);
    }
  }

  lemma MemberAfterRelease(g: Graph, ordered: seq<string>, id: string, dependants: seq<string>,
                           indegree: map<string, int>, n: string)
    requires DependenciesFirst(g, ordered) && IsDependantList(g, id, dependants)
    requires id in Available(g, Elements(ordered)) && CountsWaiting(g, ordered, indegree) && n in g
    ensures n in dependants ==> n !in Available(g, Elements(ordered))
    ensures n in Available(g, Elements(ordered + [id]))
       <==> (n in Available(g, Elements(ordered)) && n != id) || n in Freed(dependants, indegree)
  {
    WaitingAfter(g, ordered, id, n);
    AvailableIffWaitsForNothing(g, ordered, n);
    AvailableIffWaitsForNothing(g, ordered + [id], n);
    if n in ordered {
      OrderedWaitsForNothing(g, ordered, n);
    }
    assert n in ordered + [id] <==> n in ordered || n == id;
    var waiting := Waiting(g, n, ordered);
    assert n in dependants <==> id in waiting;
    assert id in waiting ==> |waiting - {id}| == |waiting| - 1;
    assert id !in waiting ==> waiting - {id} == waiting;
  }

  /** What one round of the loop does to the available nodes. */
  lemma AvailableAfterRelease(g: Graph, ordered: seq<string>, id: string, dependants: seq<string>, indegree: map<string, int>)
    requires DependenciesFirst(g, ordered) && IsDependantList(g, id, dependants)
    requires id in Available(g, Elements(ordered)) && CountsWaiting(g, ordered, indegree)
    ensures Available(g, Elements(ordered + [id]))
         == Available(g, Elements(ordered)) - {id} + Freed(dependants, indegree)
    ensures Elements(dependants) !! Available(g, Elements(ordered))
  {
    var before, after, freed := Available(g, Elements(ordered)), Available(g, Elements(ordered + [id])), Freed(dependants, indegree);
    forall n | n in g
      ensures n in dependants ==> n !in before
      ensures n in after <==> n in before - {id} + freed
    {
      MemberAfterRelease(g, ordered, id, dependants, indegree, n);
    }
    assert after <= g.Keys && before - {id} + freed <= g.Keys;
  }

  lemma ExtendGreedy(g: Graph, ordered: seq<string>, id: string)
    requires Distinct(ordered) && DependenciesFirst(g, ordered) && IsGreedy(g, ordered)
    requires IsLeast(id, Available(g, Elements(ordered)))
    ensures Distinct(ordered + [id]) && DependenciesFirst(g, ordered + [id]) && IsGreedy(g, ordered + [id])
  {
    var longer := ordered + [id];
    forall i | 0 <= i < |longer|
      ensures PlacedAfterDependencies(g, longer, i) && ChosenLeast(g, longer, i)
    {
      assert longer[..i] == ordered[..i];
      if i == |ordered| {
        assert ordered[..i] == ordered;
      } else {
        assert PlacedAfterDependencies(g, ordered, i) && ChosenLeast(g, ordered, i);
      }
    }
  }

  lemma FirstIsLeast(s: seq<string>)
    requires StrictlySorted(s) && s != []
    ensures IsLeast(s[0], Elements(s))
  {
    forall y | y in Elements(s)
      ensures AtMost(s[0], y)
    {
      var j :| 0 <= j < |s| && s[j] == y;
      assert j > 0 ==> InOrder(s, 0, j);
    }
  }

  /** Nodes whose count is zero, in order: the ready list before the first round. */
  function InitiallyReady(indegree: map<string, int>): seq<string> {
    Ascending(set n | n in indegree && indegree[n] == 0)
  }

  ghost predicate LoopState(g: Graph, ordered: seq<string>, ready: seq<string>, indegree: map<string, int>) {
    && Distinct(ordered) && DependenciesFirst(g, ordered) && IsGreedy(g, ordered)
    && StrictlySorted(ready) && Elements(ready) == Available(g, Elements(ordered))
    && CountsWaiting(g, ordered, indegree)
  }

  lemma InitialState(g: Graph, indegree: map<string, int>)
    requires indegree.Keys == g.Keys && forall n :: n in indegree ==> indegree[n] == |g[n]|
    ensures LoopState(g, [], InitiallyReady(indegree), indegree)
  {
    assert Elements<string>([]) == {};
    NothingWaited(g, indegree);
    NothingOrdered(g, indegree);
  }

  lemma NothingWaited(g: Graph, indegree: map<string, int>)
    requires indegree.Keys == g.Keys && forall n :: n in indegree ==> indegree[n] == |g[n]|
    ensures CountsWaiting(g, [], indegree)
  {
    forall n | n in g
      ensures Waiting(g, n, []) == g[n]
    {
    }
  }

  lemma NothingOrdered(g: Graph, indegree: map<string, int>)
    requires indegree.Keys == g.Keys && forall n :: n in indegree ==> indegree[n] == |g[n]|
    ensures Elements(InitiallyReady(indegree)) == Available(g, {})
  {
    forall n | n in g
      ensures indegree[n] == 0 <==> g[n] <= {}
    {
    }
  }

  /** The loop: takes the least ready node, releases its dependants, until nothing is ready. */
  method Order(nodes: seq<CompiledNode>) returns (outcome: Result<seq<string>, seq<string>>)
    requires DistinctIds(nodes) && Closed(GraphOf(nodes))
    requires forall i :: 0 <= i < |nodes| ==> StrictlySorted(nodes[i].dependencies)
    ensures outcome.Ok? ==> IsLexLeastOrder(GraphOf(nodes), outcome.value)
    ensures outcome.Err? <==> HasCycle(GraphOf(nodes))
    ensures outcome.Err? ==> StrictlySorted(outcome.error)
    ensures outcome.Err? ==> forall n :: n in outcome.error <==> n in GraphOf(nodes) && ReachesCycle(GraphOf(nodes), n)
  {
    ghost var g := GraphOf(nodes);
    GraphRepresents(nodes);
    var dependants, indegree := CountDependencies(nodes, g);
    var ordered := OrderReady(g, dependants, indegree);
    outcome := Conclude(nodes, g, ordered);
  }

  lemma DependantsInGraph(g: Graph, id: string, dependants: seq<string>)
    requires IsDependantList(g, id, dependants)
    ensures Elements(dependants) <= g.Keys
  {
  }

  /** One round: moves the least ready node to the order and releases its dependants. */
  method TakeLeast(ghost g: Graph, dependants: seq<string>,
                   ordered: seq<string>, ready: seq<string>, indegree: map<string, int>)
    returns (ordered': seq<string>, ready': seq<string>, indegree': map<string, int>)
    requires LoopState(g, ordered, ready, indegree) && ready != []
    requires IsDependantList(g, ready[0], dependants)
    ensures ordered' == ordered + [ready[0]] && LoopState(g, ordered', ready', indegree')
  {
    var id := ready[0];
    BeforeRelease(g, dependants, ordered, ready, indegree);
    indegree', ready' := Release(dependants, indegree, ready[1..]);
    AfterRelease(g, dependants, ordered, ready, indegree, ready', indegree');
    ordered' := ordered + [id];
  }

  lemma BeforeRelease(g: Graph, dependants: seq<string>, ordered: seq<string>, ready: seq<string>, indegree: map<string, int>)
    requires LoopState(g, ordered, ready, indegree) && ready != []
    requires IsDependantList(g, ready[0], dependants)
    ensures Elements(dependants) <= indegree.Keys
    ensures StrictlySorted(ready[1..]) && Elements(dependants) !! Elements(ready[1..])
  {
    FirstIsLeast(ready);
    TailElements(ready);
    AvailableAfterRelease(g, ordered, ready[0], dependants, indegree);
    DependantsInGraph(g, ready[0], dependants);
  }

  lemma AfterRelease(g: Graph, dependants: seq<string>, ordered: seq<string>, ready: seq<string>, indegree: map<string, int>,
                     ready': seq<string>, indegree': map<string, int>)
    requires LoopState(g, ordered, ready, indegree) && ready != []
    requires IsDependantList(g, ready[0], dependants)
    requires indegree' == map n | n in indegree :: if n in dependants then indegree[n] - 1 else indegree[n]
    requires StrictlySorted(ready') && Elements(ready') == Elements(ready[1..]) + Freed(dependants, indegree)
    ensures LoopState(g, ordered + [ready[0]], ready', indegree')
  {
    var id := ready[0];
    FirstIsLeast(ready);
    TailElements(ready);
    AvailableAfterRelease(g, ordered, id, dependants, indegree);
    CountsAfterRelease(g, ordered, id, dependants, indegree, indegree');
    ExtendGreedy(g, ordered, id);
  }

  lemma FewerLeft(g: Graph, ordered: seq<string>, id: string)
    requires id in Available(g, Elements(ordered))
    ensures g.Keys - Elements(ordered + [id]) < g.Keys - Elements(ordered)
  {
    assert Elements(ordered + [id]) == Elements(ordered) + {id};
    assert id in g.Keys - Elements(ordered);
  }

  method OrderReady(ghost g: Graph, dependants: map<string, seq<string>>, counts: map<string, int>)
    returns (ordered: seq<string>)
    requires dependants.Keys == g.Keys && AreDependants(g, dependants) && Closed(g)
    requires counts.Keys == g.Keys && forall n :: n in counts ==> counts[n] == |g[n]|
    ensures Distinct(ordered) && DependenciesFirst(g, ordered) && IsGreedy(g, ordered)
    ensures Available(g, Elements(ordered)) == {}
  {
    InitialState(g, counts);
    var indegree, ready := counts, InitiallyReady(counts);
    ordered := [];
    while ready != []
      invariant LoopState(g, ordered, ready, indegree)
      decreases g.Keys - Elements(ordered)
    {
      FirstIsLeast(ready);
      FewerLeft(g, ordered, ready[0]);
      assert IsDependantList(g, ready[0], dependants[ready[0]]);
      ordered, ready, indegree := TakeLeast(g, dependants[ready[0]], ordered, ready, indegree);
    }
    assert Elements(ready) == {};
  }

  lemma GraphRepresents(nodes: seq<CompiledNode>)
    requires DistinctIds(nodes)
    ensures Represents(GraphOf(nodes), nodes)
  {
  }

  lemma NodeInGraph(nodes: seq<CompiledNode>, i: nat)
    requires DistinctIds(nodes) && i < |nodes|
    ensures nodes[i].id in GraphOf(nodes) && GraphOf(nodes)[nodes[i].id] == Elements(nodes[i].dependencies)
  {
  }

  lemma RepresentedGraphIsUnique(g: Graph, h: Graph, nodes: seq<CompiledNode>)
    requires Represents(g, nodes) && Represents(h, nodes)
    ensures g == h
  {
    forall n | n in g
      ensures n in h && g[n] == h[n]
    {
      var i :| 0 <= i < |nodes| && nodes[i].id == n;
    }
    forall n | n in h
      ensures n in g
    {
      var i :| 0 <= i < |nodes| && nodes[i].id == n;
    }
  }

  /** Compares the lengths and reports the nodes left over, if any. */
  method Conclude(nodes: seq<CompiledNode>, ghost g: Graph, ordered: seq<string>)
    returns (outcome: Result<seq<string>, seq<string>>)
    requires DistinctIds(nodes) && Represents(g, nodes) && Closed(g)
    requires Distinct(ordered) && DependenciesFirst(g, ordered) && IsGreedy(g, ordered)
    requires Available(g, Elements(ordered)) == {}
    ensures outcome.Ok? ==> IsLexLeastOrder(g, outcome.value)
    ensures outcome.Err? <==> HasCycle(g)
    ensures outcome.Err? ==> StrictlySorted(outcome.error)
    ensures outcome.Err? ==> forall n :: n in outcome.error <==> n in g && ReachesCycle(g, n)
  {
    var ids := set i | 0 <= i < |nodes| :: nodes[i].id;
    assert ids == g.Keys;
    forall n | n in g
      ensures n !in ordered <==> ReachesCycle(g, n)
    {
      LeftOverReachesCycle(g, ordered, n);
    }
    CycleIffReached(g);
    NodeCount(nodes, g);
    DistinctIffCounted(ordered);
    if |ordered| != |nodes| {
      LeftOver(g, ordered);
      var cyclic := Ascending(ids - Elements(ordered));
      assert forall n :: n in cyclic <==> n in Elements(cyclic);
      outcome := Err(cyclic);
    } else {
      OrderedInGraph(g, ordered);
      SameSizeSubset(Elements(ordered), ids);
      forall other | IsTopological(g, other)
        ensures LexAtMost(ordered, other)
      {
        GreedyIsLexLeast(g, ordered, other);
      }
      outcome := Ok(ordered);
    }
  }

  lemma OrderedInGraph(g: Graph, ordered: seq<string>)
    requires DependenciesFirst(g, ordered)
    ensures Elements(ordered) <= g.Keys
  {
    forall n | n in ordered
      ensures n in g
    {
      var i :| 0 <= i < |ordered| && ordered[i] == n;
      assert PlacedAfterDependencies(g, ordered, i);
    }
  }

  lemma LeftOver(g: Graph, ordered: seq<string>)
    requires DependenciesFirst(g, ordered) && |Elements(ordered)| != |g.Keys|
    ensures exists n :: n in g && n !in ordered
  {
    OrderedInGraph(g, ordered);
    SubsetCount(Elements(ordered), g.Keys);
    var missing := g.Keys - Elements(ordered);
    assert g.Keys == missing + Elements(ordered);
    var n :| n in missing;
  }

  lemma NodeCount(nodes: seq<CompiledNode>, g: Graph)
    requires DistinctIds(nodes) && Represents(g, nodes)
    ensures |g.Keys| == |nodes|
  {
    var ids := seq(|nodes|, i requires 0 <= i < |nodes| => nodes[i].id);
    DistinctIffCounted(ids);
    forall n
      ensures n in Elements(ids) <==> n in g
    {
      if n in g {
        var i :| 0 <= i < |nodes| && nodes[i].id == n;
        assert ids[i] == n;
      }
    }
    assert Elements(ids) == g.Keys;
  }
}
