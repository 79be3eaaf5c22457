/** Stable sorting by a comparator, and when two inputs sort to the same output. */
module StableSort {

  ghost predicate TotalPreorder<T(!new)>(le: (T, T) -> bool) {
    && (forall x, y :: le(x, y) || le(y, x))
    && (forall x, y, z :: le(x, y) && le(y, z) ==> le(x, z))
  }

  ghost predicate Sorted<T(!new)>(s: seq<T>, le: (T, T) -> bool) {
    forall i, j :: 0 <= i < j < |s| ==> le(s[i], s[j])
  }

  /** Puts `x` after the elements that do not exceed it. */
  function Insert<T>(sorted: seq<T>, x: T, le: (T, T) -> bool): seq<T> {
    if sorted == [] then [x]
    else if le(sorted[0], x) then [sorted[0]] + Insert(sorted[1..], x, le)
    else [x] + sorted
  }

  /** `s.sort(comparator)`: elements that compare equal keep their order. */
  function Sort<T>(s: seq<T>, le: (T, T) -> bool): seq<T> {
    if s == [] then [] else Insert(Sort(s[..|s| - 1], le), s[|s| - 1], le)
  }

  function Filter<T>(s: seq<T>, p: T -> bool): seq<T> {
    if s == [] then [] else (if p(s[0]) then [s[0]] else []) + Filter(s[1..], p)
  }

  lemma {:induction false} InsertMultiset<T>(sorted: seq<T>, x: T, le: (T, T) -> bool)
    ensures multiset(Insert(sorted, x, le)) == multiset(sorted) + multiset{x}
  {
    if sorted != [] {
      assert sorted == [sorted[0]] + sorted[1..];
      InsertMultiset(sorted[1..], x, le);
    }
  }

  lemma {:induction false} SortMultiset<T>(s: seq<T>, le: (T, T) -> bool)
    ensures multiset(Sort(s, le)) == multiset(s)
  {
    if s != [] {
      var init := s[..|s| - 1];
      assert s == init + [s[|s| - 1]];
      SortMultiset(init, le);
      InsertMultiset(Sort(init, le), s[|s| - 1], le);
    }
  }

  lemma InMultiset<T>(s: seq<T>, t: seq<T>, x: T)
    requires multiset(s) == multiset(t)
    ensures x in s <==> x in t
  {
    assert x in s <==> x in multiset(s);
    assert x in t <==> x in multiset(t);
  }

  lemma {:induction false} InsertSorted<T(!new)>(sorted: seq<T>, x: T, le: (T, T) -> bool)
    requires TotalPreorder(le) && Sorted(sorted, le)
    ensures Sorted(Insert(sorted, x, le), le)
  {
    if sorted != [] {
      if le(sorted[0], x) {
        var rest := Insert(sorted[1..], x, le);
        InsertSorted(sorted[1..], x, le);
        InsertMultiset(sorted[1..], x, le);
        forall j | 0 <= j < |rest|
          ensures le(sorted[0], rest[j])
        {
          assert rest[j] in multiset(rest);
          assert rest[j] == x || rest[j] in sorted[1..];
        }
      }
    }
  }

  lemma {:induction false} SortSorted<T(!new)>(s: seq<T>, le: (T, T) -> bool)
    requires TotalPreorder(le)
    ensures Sorted(Sort(s, le), le)
  {
    if s != [] {
      SortSorted(s[..|s| - 1], le);
      InsertSorted(Sort(s[..|s| - 1], le), s[|s| - 1], le);
    }
  }

  lemma FilterCons<T>(x: T, s: seq<T>, p: T -> bool)
    ensures p(x) ==> Filter([x] + s, p) == [x] + Filter(s, p)
    ensures !p(x) ==> Filter([x] + s, p) == Filter(s, p)
  {
    assert ([x] + s)[1..] == s;
    assert [] + Filter(s, p) == Filter(s, p);
  }

  lemma Associate<T>(x: T, s: seq<T>, t: seq<T>)
    ensures [x] + (s + t) == [x] + s + t
  {
  }

  lemma {:induction false} FilterAppend<T>(s: seq<T>, t: seq<T>, p: T -> bool)
    ensures Filter(s + t, p) == Filter(s, p) + Filter(t, p)
  {
    if s == [] {
      assert s + t == t;
    } else {
      FilterAppend(s[1..], t, p);
      FilterCons(s[0], s[1..], p);
      FilterCons(s[0], s[1..] + t, p);
      assert [s[0]] + s[1..] == s && [s[0]] + (s[1..] + t) == s + t;
      Associate(s[0], Filter(s[1..], p), Filter(t, p));
    }
  }

  lemma {:induction false} FilterMembers<T>(s: seq<T>, p: T -> bool)
    ensures forall x :: x in Filter(s, p) <==> x in s && p(x)
  {
    if s != [] {
      FilterMembers(s[1..], p);
    }
  }

  lemma {:induction false} FilterNothing<T>(s: seq<T>, p: T -> bool)
    requires forall i :: 0 <= i < |s| ==> !p(s[i])
    ensures Filter(s, p) == []
  {
    if s != [] {
      FilterNothing(s[1..], p);
    }
  }

  lemma {:induction false} FilterEverything<T>(s: seq<T>, p: T -> bool)
    requires forall i :: 0 <= i < |s| ==> p(s[i])
    ensures Filter(s, p) == s
  {
    if s != [] {
      assert s == [s[0]] + s[1..];
      FilterEverything(s[1..], p);
    }
  }

  lemma {:induction false} FilterInsert<T(!new)>(sorted: seq<T>, x: T, le: (T, T) -> bool, p: T -> bool)
    requires TotalPreorder(le) && Sorted(sorted, le)
    ensures Filter(Insert(sorted, x, le), p) == if p(x) then Insert(Filter(sorted, p), x, le) else Filter(sorted, p)
  {
    if sorted != [] {
      assert [sorted[0]] + sorted[1..] == sorted;
      FilterCons(sorted[0], sorted[1..], p);
      if le(sorted[0], x) {
        FilterInsert(sorted[1..], x, le, p);
        FilterCons(sorted[0], Insert(sorted[1..], x, le), p);
        assert ([sorted[0]] + Filter(sorted[1..], p))[1..] == Filter(sorted[1..], p);
      } else {
        FilterCons(x, sorted, p);
        FilterMembers(sorted, p);
        var kept := Filter(sorted, p);
        assert kept != [] ==> kept[0] in sorted && !le(kept[0], x);
      }
    }
  }

  /** Sorting and then keeping a part gives the sorted part. */
  lemma {:induction false} FilterSort<T(!new)>(s: seq<T>, le: (T, T) -> bool, p: T -> bool)
    requires TotalPreorder(le)
    ensures Filter(Sort(s, le), p) == Sort(Filter(s, p), le)
  {
    if s != [] {
      var init, last := s[..|s| - 1], s[|s| - 1];
      assert s == init + [last];
      FilterAppend(init, [last], p);
      FilterSort(init, le, p);
      SortSorted(init, le);
      FilterInsert(Sort(init, le), last, le, p);
      var kept := Filter(init, p);
      FilterCons(last, [], p);
      assert [last] + [] == [last];
      assert (kept + [last])[..|kept|] == kept && kept + [] == kept;
    }
  }

  /** Only elements of one class compare equal. */
  ghost predicate Separates<T(!new)>(le: (T, T) -> bool, group: T -> string) {
    forall x, y :: le(x, y) && le(y, x) ==> group(x) == group(y)
  }

  function InGroup<T>(group: T -> string, key: string): T -> bool {
    x => group(x) == key
  }

  ghost predicate SameGroups<T>(a: seq<T>, b: seq<T>, group: T -> string) {
    forall key :: Filter(a, InGroup(group, key)) == Filter(b, InGroup(group, key))
  }

  lemma {:induction false} SortedDetermined<T(!new)>(a: seq<T>, b: seq<T>, le: (T, T) -> bool, group: T -> string)
    requires TotalPreorder(le) && Separates(le, group) && Sorted(a, le) && Sorted(b, le) && SameGroups(a, b, group)
    ensures a == b
  {
    if a == [] {
      if b != [] {
        NonEmptyGroups(a, b, group);
      }
    } else {
      NonEmptyGroups(b, a, group);
      FirstsAgree(a, b, le, group);
      forall key
        ensures Filter(a[1..], InGroup(group, key)) == Filter(b[1..], InGroup(group, key))
      {
        SameTails(a, b, InGroup(group, key));
      }
      SortedDetermined(a[1..], b[1..], le, group);
      assert a == [a[0]] + a[1..] && b == [b[0]] + b[1..];
    }
  }

  lemma FirstsAgree<T(!new)>(a: seq<T>, b: seq<T>, le: (T, T) -> bool, group: T -> string)
    requires TotalPreorder(le) && Separates(le, group) && Sorted(a, le) && Sorted(b, le) && SameGroups(a, b, group)
    requires a != [] && b != []
    ensures a[0] == b[0]
  {
    GroupMember(b, a, a[0], group);
    GroupMember(a, b, b[0], group);
    FirstIsLeast(a, b[0], le);
    FirstIsLeast(b, a[0], le);
    FirstOfGroup(a, group);
    FirstOfGroup(b, group);
    assert Filter(a, InGroup(group, group(a[0]))) == Filter(b, InGroup(group, group(a[0])));
  }

  lemma FirstIsLeast<T(!new)>(s: seq<T>, x: T, le: (T, T) -> bool)
    requires TotalPreorder(le) && Sorted(s, le) && x in s
    ensures le(s[0], x)
  {
    var i :| 0 <= i < |s| && s[i] == x;
    assert i == 0 ==> le(x, x);
  }

  lemma SameTails<T>(a: seq<T>, b: seq<T>, p: T -> bool)
    requires a != [] && b != [] && a[0] == b[0] && Filter(a, p) == Filter(b, p)
    ensures Filter(a[1..], p) == Filter(b[1..], p)
  {
    assert [a[0]] + a[1..] == a && [b[0]] + b[1..] == b;
    FilterCons(a[0], a[1..], p);
    FilterCons(b[0], b[1..], p);
    assert p(a[0]) ==> Filter(a[1..], p) == Filter(a, p)[1..] && Filter(b[1..], p) == Filter(b, p)[1..];
  }

  lemma GroupMember<T>(a: seq<T>, b: seq<T>, x: T, group: T -> string)
    requires SameGroups(a, b, group) && x in b
    ensures x in a
  {
    var p := InGroup(group, group(x));
    FilterMembers(a, p);
    FilterMembers(b, p);
    assert Filter(a, p) == Filter(b, p);
  }

  lemma NonEmptyGroups<T>(a: seq<T>, b: seq<T>, group: T -> string)
    requires SameGroups(a, b, group) && b != []
    ensures a != []
  {
    GroupMember(a, b, b[0], group);
  }

  lemma FirstOfGroup<T>(s: seq<T>, group: T -> string)
    requires s != []
    ensures Filter(s, InGroup(group, group(s[0]))) != [] && Filter(s, InGroup(group, group(s[0])))[0] == s[0]
  {
  }

  /** Two lists sort to the same list if each group occurs in the same order in both. */
  lemma SortDependsOnGroups<T(!new)>(a: seq<T>, b: seq<T>, le: (T, T) -> bool, group: T -> string)
    requires TotalPreorder(le) && Separates(le, group) && SameGroups(a, b, group)
    ensures Sort(a, le) == Sort(b, le)
  {
    SortSorted(a, le);
    SortSorted(b, le);
    forall key
      ensures Filter(Sort(a, le), InGroup(group, key)) == Filter(Sort(b, le), InGroup(group, key))
    {
      FilterSort(a, le, InGroup(group, key));
      FilterSort(b, le, InGroup(group, key));
      assert Filter(a, InGroup(group, key)) == Filter(b, InGroup(group, key));
    }
    SortedDetermined(Sort(a, le), Sort(b, le), le, group);
  }

  // ------------------------------------------------ groups of one element

  ghost predicate DistinctGroups<T>(s: seq<T>, group: T -> string) {
    forall i, j :: 0 <= i < j < |s| ==> GroupsDiffer(s, group, i, j)
  }

  predicate GroupsDiffer<T>(s: seq<T>, group: T -> string, i: nat, j: nat)
    requires i < j < |s|
  {
    group(s[i]) != group(s[j])
  }

  /** In a slice groups still differ, and no element of the slice is in the group of one outside it. */
  lemma DistinctSlice<T>(s: seq<T>, group: T -> string, lo: nat, hi: nat)
    requires DistinctGroups(s, group) && lo <= hi <= |s|
    ensures DistinctGroups(s[lo..hi], group)
    ensures forall x, k :: x in s[lo..hi] && 0 <= k < |s| && !(lo <= k < hi) ==> group(x) != group(s[k])
  {
    forall i, j | 0 <= i < j < hi - lo
      ensures GroupsDiffer(s[lo..hi], group, i, j)
    {
      assert GroupsDiffer(s, group, lo + i, lo + j);
    }
    forall x, k | x in s[lo..hi] && 0 <= k < |s| && !(lo <= k < hi)
      ensures group(x) != group(s[k])
    {
      var i :| lo <= i < hi && s[i] == x;
      assert if i < k then GroupsDiffer(s, group, i, k) else GroupsDiffer(s, group, k, i);
    }
  }

  lemma DistinctTail<T>(s: seq<T>, group: T -> string)
    requires DistinctGroups(s, group) && s != []
    ensures DistinctGroups(s[1..], group) && forall x :: x in s[1..] ==> group(x) != group(s[0])
  {
    DistinctSlice(s, group, 1, |s|);
    assert s[1..|s|] == s[1..];
  }

  lemma DistinctInit<T>(s: seq<T>, group: T -> string)
    requires DistinctGroups(s, group) && s != []
    ensures DistinctGroups(s[..|s| - 1], group) && forall x :: x in s[..|s| - 1] ==> group(x) != group(s[|s| - 1])
  {
    DistinctSlice(s, group, 0, |s| - 1);
    assert s[0..|s| - 1] == s[..|s| - 1];
  }

  lemma DistinctCons<T>(x: T, s: seq<T>, group: T -> string)
    requires DistinctGroups(s, group) && forall y :: y in s ==> group(y) != group(x)
    ensures DistinctGroups([x] + s, group)
  {
    forall i, j | 0 <= i < j < |[x] + s|
      ensures GroupsDiffer([x] + s, group, i, j)
    {
      assert i > 0 ==> GroupsDiffer(s, group, i - 1, j - 1);
    }
  }

  /** Two elements of one group are the same element. */
  lemma OneOfGroup<T>(s: seq<T>, group: T -> string, x: T, y: T)
    requires DistinctGroups(s, group) && x in s && y in s && group(x) == group(y)
    ensures x == y
  {
    var i :| 0 <= i < |s| && s[i] == x;
    var j :| 0 <= j < |s| && s[j] == y;
    assert i < j ==> GroupsDiffer(s, group, i, j);
    assert j < i ==> GroupsDiffer(s, group, j, i);
  }

  lemma {:induction false} FilterUnique<T>(s: seq<T>, x: T, group: T -> string)
    requires DistinctGroups(s, group) && x in s
    ensures Filter(s, InGroup(group, group(x))) == [x]
  {
    DistinctTail(s, group);
    if s[0] == x {
      FilterNone(s[1..], group, group(x));
    } else {
      FilterUnique(s[1..], x, group);
    }
  }

  lemma FilterNone<T>(s: seq<T>, group: T -> string, key: string)
    requires forall x :: x in s ==> group(x) != key
    ensures Filter(s, InGroup(group, key)) == []
  {
    FilterNothing(s, InGroup(group, key));
  }

  /** With distinct keys, every permutation sorts to the same list. */
  lemma SortIgnoresOrder<T(!new)>(a: seq<T>, b: seq<T>, le: (T, T) -> bool, group: T -> string)
    requires TotalPreorder(le) && Separates(le, group)
    requires multiset(a) == multiset(b) && DistinctGroups(a, group) && DistinctGroups(b, group)
    ensures Sort(a, le) == Sort(b, le)
  {
    forall key
      ensures Filter(a, InGroup(group, key)) == Filter(b, InGroup(group, key))
    {
      if exists x :: x in a && group(x) == key {
        var x :| x in a && group(x) == key;
        InMultiset(a, b, x);
        FilterUnique(a, x, group);
        FilterUnique(b, x, group);
      } else {
        forall x | x in b
          ensures group(x) != key
        {
          InMultiset(a, b, x);
        }
        FilterNone(a, group, key);
        FilterNone(b, group, key);
      }
    }
    SortDependsOnGroups(a, b, le, group);
  }

  /** Distinctness of keys does not depend on the order. */
  lemma DistinctIgnoresOrder<T(!new)>(a: seq<T>, b: seq<T>, group: T -> string)
    requires multiset(a) == multiset(b) && DistinctGroups(a, group)
    ensures DistinctGroups(b, group)
  {
    forall i, j | 0 <= i < j < |b|
      ensures GroupsDiffer(b, group, i, j)
    {
      InMultiset(a, b, b[i]);
      InMultiset(a, b, b[j]);
      if group(b[i]) == group(b[j]) {
        OneOfGroup(a, group, b[i], b[j]);
        TwiceIn(b, i, j);
        OnlyOnce(a, b[j], group);
      }
    }
  }

  lemma TwiceIn<T>(s: seq<T>, i: nat, j: nat)
    requires i < j < |s| && s[i] == s[j]
    ensures multiset(s)[s[j]] >= 2
  {
    assert s == s[..j] + [s[j]] + s[j + 1..];
    assert s[..j][i] == s[j];
    assert multiset(s) == multiset(s[..j]) + multiset{s[j]} + multiset(s[j + 1..]);
  }

  lemma {:induction false} OnlyOnce<T>(s: seq<T>, x: T, group: T -> string)
    requires DistinctGroups(s, group)
    ensures multiset(s)[x] <= 1
  {
    if s != [] {
      assert s == [s[0]] + s[1..];
      DistinctTail(s, group);
      OnlyOnce(s[1..], x, group);
      assert x == s[0] ==> x !in s[1..];
    }
  }

  // ---------------------------------------------------- counting the keys

  function Groups<T(==)>(s: seq<T>, group: T -> string): set<string> {
    set x | x in s :: group(x)
  }

  lemma GroupsCons<T>(s: seq<T>, group: T -> string)
    requires s != []
    ensures Groups(s, group) == Groups(s[1..], group) + {group(s[0])}
    ensures DistinctGroups(s, group) <==> DistinctGroups(s[1..], group) && group(s[0]) !in Groups(s[1..], group)
  {
    assert s == [s[0]] + s[1..];
    if DistinctGroups(s, group) {
      DistinctTail(s, group);
    }
    if DistinctGroups(s[1..], group) && group(s[0]) !in Groups(s[1..], group) {
      DistinctCons(s[0], s[1..], group);
    }
  }

  lemma {:induction false} DistinctIffCount<T>(s: seq<T>, group: T -> string)
    ensures |Groups(s, group)| <= |s| && (|Groups(s, group)| == |s| <==> DistinctGroups(s, group))
  {
    if s != [] {
      DistinctIffCount(s[1..], group);
      GroupsCons(s, group);
    }
  }

  /** `new Set(keys).size === keys.length` */
  method Distinct<T(==)>(s: seq<T>, group: T -> string) returns (distinct: bool)
    ensures distinct <==> DistinctGroups(s, group)
  {
    DistinctIffCount(s, group);
    distinct := |Groups(s, group)| == |s|;
  }
}
