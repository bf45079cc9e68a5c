/** Stable sorting (the standard library's sort_by and sort_by_key) and the two ways the
    gateway uses it: scan the sorted list for the first match, or let later entries overwrite
    earlier ones. Both are characterised on the unsorted input, ties included. */
module Sorting {
  import opened Wrappers

  predicate Comparable<T>(leq: (T, T) -> bool, a: T, b: T) {
    leq(a, b) || leq(b, a)
  }

  predicate Chained<T>(leq: (T, T) -> bool, a: T, b: T, c: T) {
    leq(a, b) && leq(b, c) ==> leq(a, c)
  }

  ghost predicate TotalPreorder<T(!new)>(leq: (T, T) -> bool) {
    && (forall a, b :: Comparable(leq, a, b))
    && (forall a, b, c :: Chained(leq, a, b, c))
  }

  lemma Chain<T(!new)>(leq: (T, T) -> bool, a: T, b: T, c: T)
    requires TotalPreorder(leq)
    ensures leq(a, b) || leq(b, a)
    ensures leq(a, b) && leq(b, c) ==> leq(a, c)
  {
    assert Comparable(leq, a, b) && Chained(leq, a, b, c);
  }

  ghost predicate Sorted<T(!new)>(leq: (T, T) -> bool, s: seq<T>) {
    forall i, j :: 0 <= i < j < |s| ==> leq(s[i], s[j])
  }

  /** Inserts x behind everything that may stay in front of it. */
  function Insert<T>(leq: (T, T) -> bool, s: seq<T>, x: T): (r: seq<T>)
    ensures |r| == |s| + 1
  {
    if s == [] || leq(s[|s| - 1], x) then s + [x]
    else Insert(leq, s[..|s| - 1], x) + [s[|s| - 1]]
  }

  function Sort<T>(leq: (T, T) -> bool, s: seq<T>): (r: seq<T>)
    ensures |r| == |s|
  {
    if s == [] then [] else Insert(leq, Sort(leq, s[..|s| - 1]), s[|s| - 1])
  }

  lemma {:induction false} InsertPermutes<T>(leq: (T, T) -> bool, s: seq<T>, x: T)
    ensures multiset(Insert(leq, s, x)) == multiset(s) + multiset{x}
  {
    if s != [] && !leq(s[|s| - 1], x) {
      assert s == s[..|s| - 1] + [s[|s| - 1]];
      InsertPermutes(leq, s[..|s| - 1], x);
    }
  }

  lemma {:induction false} SortPermutes<T>(leq: (T, T) -> bool, s: seq<T>)
    ensures multiset(Sort(leq, s)) == multiset(s)
  {
    if s != [] {
      assert s == s[..|s| - 1] + [s[|s| - 1]];
      SortPermutes(leq, s[..|s| - 1]);
      InsertPermutes(leq, Sort(leq, s[..|s| - 1]), s[|s| - 1]);
    }
  }

  lemma SortKeeps<T(!new)>(leq: (T, T) -> bool, s: seq<T>)
    ensures forall x :: x in Sort(leq, s) <==> x in s
  {
    SortPermutes(leq, s);
    assert forall x :: x in s <==> x in multiset(s);
    assert forall x :: x in Sort(leq, s) <==> x in multiset(Sort(leq, s));
  }

  lemma {:induction false} InsertSorts<T(!new)>(leq: (T, T) -> bool, s: seq<T>, x: T)
    requires TotalPreorder(leq) && Sorted(leq, s)
    ensures Sorted(leq, Insert(leq, s, x))
    ensures forall y :: y in Insert(leq, s, x) ==> y == x || y in s
  {
    if s != [] && !leq(s[|s| - 1], x) {
      var t, y := s[..|s| - 1], s[|s| - 1];
      InsertSorts(leq, t, x);
      Chain(leq, x, y, y);
      forall z | z in Insert(leq, t, x)
        ensures leq(z, y)
      {
        if z in t {
          var i :| 0 <= i < |t| && t[i] == z;
          assert leq(s[i], s[|s| - 1]);
        }
      }
    } else if s != [] {
      forall i | 0 <= i < |s|
        ensures leq(s[i], x)
      {
        Chain(leq, s[i], s[|s| - 1], x);
      }
    }
  }

  lemma {:induction false} SortSorts<T(!new)>(leq: (T, T) -> bool, s: seq<T>)
    requires TotalPreorder(leq)
    ensures Sorted(leq, Sort(leq, s))
  {
    if s != [] {
      SortSorts(leq, s[..|s| - 1]);
      InsertSorts(leq, Sort(leq, s[..|s| - 1]), s[|s| - 1]);
    }
  }

  // ---------------------------------------------------------------- first and last match

  function FirstWhere<T>(p: T -> bool, s: seq<T>): (r: Option<T>)
    ensures r.Some? ==> r.value in s && p(r.value)
    ensures r.None? ==> forall i :: 0 <= i < |s| ==> !p(s[i])
  {
    if s == [] then None
    else
      var r := FirstWhere(p, s[..|s| - 1]);
      if r.Some? then r else if p(s[|s| - 1]) then Some(s[|s| - 1]) else None
  }

  function LastWhere<T>(p: T -> bool, s: seq<T>): (r: Option<T>)
    ensures r.Some? ==> r.value in s && p(r.value)
    ensures r.None? ==> forall i :: 0 <= i < |s| ==> !p(s[i])
  {
    if s == [] then None
    else if p(s[|s| - 1]) then Some(s[|s| - 1])
    else LastWhere(p, s[..|s| - 1])
  }

  /** i is the earliest of the smallest elements satisfying p. */
  ghost predicate FirstBest<T>(leq: (T, T) -> bool, p: T -> bool, s: seq<T>, i: nat) {
    && i < |s| && p(s[i])
    && forall j :: 0 <= j < |s| && p(s[j]) ==> leq(s[i], s[j]) && (j < i ==> !leq(s[j], s[i]))
  }

  /** i is the latest of the largest elements satisfying p. */
  ghost predicate LastBest<T>(leq: (T, T) -> bool, p: T -> bool, s: seq<T>, i: nat) {
    && i < |s| && p(s[i])
    && forall j :: 0 <= j < |s| && p(s[j]) ==> leq(s[j], s[i]) && (i < j ==> !leq(s[i], s[j]))
  }

  lemma LastBestIsUnique<T>(leq: (T, T) -> bool, p: T -> bool, s: seq<T>, i: nat, j: nat)
    requires LastBest(leq, p, s, i) && LastBest(leq, p, s, j)
    ensures i == j
  {
  }

  lemma FirstBestIsUnique<T>(leq: (T, T) -> bool, p: T -> bool, s: seq<T>, i: nat, j: nat)
    requires FirstBest(leq, p, s, i) && FirstBest(leq, p, s, j)
    ensures i == j
  {
  }

  lemma {:induction false} FirstOfInsert<T(!new)>(leq: (T, T) -> bool, p: T -> bool, s: seq<T>, x: T)
    requires TotalPreorder(leq) && Sorted(leq, s)
    ensures var r := FirstWhere(p, s);
            FirstWhere(p, Insert(leq, s, x)) == if p(x) && (r.None? || !leq(r.value, x)) then Some(x) else r
  {
    if s == [] || leq(s[|s| - 1], x) {
      assert (s + [x])[..|s|] == s;
      var r := FirstWhere(p, s);
      if r.Some? {
        var i :| 0 <= i < |s| && s[i] == r.value;
        Chain(leq, s[i], s[|s| - 1], x);
      }
    } else {
      var t, y := s[..|s| - 1], s[|s| - 1];
      FirstOfInsert(leq, p, t, x);
      assert (Insert(leq, t, x) + [y])[..|s|] == Insert(leq, t, x);
    }
  }

  lemma {:induction false} LastOfInsert<T(!new)>(leq: (T, T) -> bool, p: T -> bool, s: seq<T>, x: T)
    requires TotalPreorder(leq) && Sorted(leq, s)
    ensures var r := LastWhere(p, s);
            LastWhere(p, Insert(leq, s, x)) == if p(x) && (r.None? || leq(r.value, x)) then Some(x) else r
  {
    if s == [] || leq(s[|s| - 1], x) {
      assert (s + [x])[..|s|] == s;
      var r := LastWhere(p, s);
      if r.Some? {
        var i :| 0 <= i < |s| && s[i] == r.value;
        Chain(leq, s[i], s[|s| - 1], x);
      }
    } else {
      var t, y := s[..|s| - 1], s[|s| - 1];
      LastOfInsert(leq, p, t, x);
      assert (Insert(leq, t, x) + [y])[..|s|] == Insert(leq, t, x);
    }
  }

  /** How the earliest best changes when one element is appended. */
  lemma FirstBestExtends<T(!new)>(leq: (T, T) -> bool, p: T -> bool, s: seq<T>, t: seq<T>, x: T, k: nat)
    requires TotalPreorder(leq) && FirstBest(leq, p, t, k) && s == t + [x]
    ensures FirstBest(leq, p, s, if p(x) && !leq(t[k], x) then |t| else k)
  {
    forall j | 0 <= j < |s| && p(s[j])
      ensures if p(x) && !leq(t[k], x) then leq(x, s[j]) && (j < |t| ==> !leq(s[j], x))
              else leq(t[k], s[j]) && (j < k ==> !leq(s[j], t[k]))
    {
      Chain(leq, x, t[k], s[j]);
      Chain(leq, t[k], s[j], x);
      Chain(leq, x, x, x);
      assert j < |t| ==> s[j] == t[j];
    }
  }

  lemma LastBestExtends<T(!new)>(leq: (T, T) -> bool, p: T -> bool, s: seq<T>, t: seq<T>, x: T, k: nat)
    requires TotalPreorder(leq) && LastBest(leq, p, t, k) && s == t + [x]
    ensures LastBest(leq, p, s, if p(x) && leq(t[k], x) then |t| else k)
  {
    forall j | 0 <= j < |s| && p(s[j])
      ensures if p(x) && leq(t[k], x) then leq(s[j], x)
              else leq(s[j], t[k]) && (k < j ==> !leq(t[k], s[j]))
    {
      Chain(leq, s[j], t[k], x);
      Chain(leq, x, t[k], x);
      Chain(leq, x, x, x);
      assert j < |t| ==> s[j] == t[j];
    }
  }

  // ---------------------------------------------------------------- scanning

  /** The earliest of the smallest elements satisfying p. */
  function FirstMin<T>(leq: (T, T) -> bool, p: T -> bool, s: seq<T>): (r: Option<T>)
    ensures r.Some? ==> r.value in s && p(r.value)
  {
    if s == [] then None
    else
      var x, r := s[|s| - 1], FirstMin(leq, p, s[..|s| - 1]);
      if p(x) && (r.None? || !leq(r.value, x)) then Some(x) else r
  }

  /** FirstMin is characterised by the index it comes from. */
  lemma {:induction false} FirstMinIsBest<T(!new)>(leq: (T, T) -> bool, p: T -> bool, s: seq<T>) returns (i: nat)
    requires TotalPreorder(leq)
    ensures FirstMin(leq, p, s).Some? ==> FirstBest(leq, p, s, i) && FirstMin(leq, p, s) == Some(s[i])
    ensures FirstMin(leq, p, s).None? ==> forall j :: 0 <= j < |s| ==> !p(s[j])
  {
    i := 0;
    if s != [] {
      var t, x := s[..|s| - 1], s[|s| - 1];
      assert s == t + [x];
      var k := FirstMinIsBest(leq, p, t);
      if FirstMin(leq, p, t).Some? {
        FirstBestExtends(leq, p, s, t, x, k);
        i := if p(x) && !leq(t[k], x) then |t| else k;
      } else {
        Chain(leq, x, x, x);
        i := |t|;
      }
    }
  }

  /** Scanning the sorted list finds the earliest of the smallest elements. */
  lemma {:induction false} FirstOfSorted<T(!new)>(leq: (T, T) -> bool, p: T -> bool, s: seq<T>)
    requires TotalPreorder(leq)
    ensures FirstWhere(p, Sort(leq, s)) == FirstMin(leq, p, s)
  {
    if s != [] {
      var t, x := s[..|s| - 1], s[|s| - 1];
      FirstOfSorted(leq, p, t);
      SortSorts(leq, t);
      FirstOfInsert(leq, p, Sort(leq, t), x);
    }
  }

  lemma {:induction false} FirstWhereIs<T(!new)>(p: T -> bool, s: seq<T>, k: nat)
    requires k < |s| && p(s[k]) && forall l :: 0 <= l < k ==> !p(s[l])
    ensures FirstWhere(p, s) == Some(s[k])
  {
    var front := s[..|s| - 1];
    if k < |front| {
      FirstWhereIs(p, front, k);
    } else {
      assert forall l :: 0 <= l < |front| ==> !p(front[l]);
    }
  }

  /** The first hit in the sorted list is the earliest of the smallest in the unsorted one. */
  lemma FirstHitIsBest<T(!new)>(leq: (T, T) -> bool, p: T -> bool, s: seq<T>, sorted: seq<T>, k: nat) returns (i: nat)
    requires TotalPreorder(leq) && sorted == Sort(leq, s) && k < |sorted|
    requires p(sorted[k]) && forall l :: 0 <= l < k ==> !p(sorted[l])
    ensures FirstBest(leq, p, s, i) && s[i] == sorted[k]
  {
    FirstWhereIs(p, sorted, k);
    FirstOfSorted(leq, p, s);
    i := FirstMinIsBest(leq, p, s);
  }

  /** No hit in the sorted list, no hit in the unsorted one. */
  lemma NoHit<T(!new)>(leq: (T, T) -> bool, p: T -> bool, s: seq<T>, sorted: seq<T>)
    requires sorted == Sort(leq, s) && forall l :: 0 <= l < |sorted| ==> !p(sorted[l])
    ensures forall i :: 0 <= i < |s| ==> !p(s[i])
  {
    SortKeeps(leq, s);
    forall i | 0 <= i < |s|
      ensures !p(s[i])
    {
      assert s[i] in sorted;
      var l :| 0 <= l < |sorted| && sorted[l] == s[i];
    }
  }

  // ---------------------------------------------------------------- overwriting

  function Filter<T>(p: T -> bool, s: seq<T>): seq<T> {
    if s == [] then []
    else
      var front := Filter(p, s[..|s| - 1]);
      if p(s[|s| - 1]) then front + [s[|s| - 1]] else front
  }

  /** Conditions that agree on every element select the same ones. */
  lemma {:induction false} FilterAlike<T>(p: T -> bool, q: T -> bool, s: seq<T>)
    requires forall i :: 0 <= i < |s| ==> p(s[i]) == q(s[i])
    ensures Filter(p, s) == Filter(q, s)
  {
    if s != [] {
      FilterAlike(p, q, s[..|s| - 1]);
    }
  }

  /** The latest of the largest elements satisfying p. */
  function LastMax<T>(leq: (T, T) -> bool, p: T -> bool, s: seq<T>): (r: Option<T>)
    ensures r.Some? ==> r.value in s && p(r.value)
  {
    if s == [] then None
    else
      var x, r := s[|s| - 1], LastMax(leq, p, s[..|s| - 1]);
      if p(x) && (r.None? || leq(r.value, x)) then Some(x) else r
  }

  /** LastMax is characterised by the index it comes from. */
  lemma {:induction false} LastMaxIsBest<T(!new)>(leq: (T, T) -> bool, p: T -> bool, s: seq<T>) returns (i: nat)
    requires TotalPreorder(leq)
    ensures LastMax(leq, p, s).Some? ==> LastBest(leq, p, s, i) && LastMax(leq, p, s) == Some(s[i])
    ensures LastMax(leq, p, s).None? ==> forall j :: 0 <= j < |s| ==> !p(s[j])
  {
    i := 0;
    if s != [] {
      var t, x := s[..|s| - 1], s[|s| - 1];
      assert s == t + [x];
      var k := LastMaxIsBest(leq, p, t);
      if LastMax(leq, p, t).Some? {
        LastBestExtends(leq, p, s, t, x, k);
        i := if p(x) && leq(t[k], x) then |t| else k;
      } else {
        Chain(leq, x, x, x);
        i := |t|;
      }
    }
  }

  lemma BestIsLastMax<T(!new)>(leq: (T, T) -> bool, p: T -> bool, s: seq<T>, i: nat)
    requires TotalPreorder(leq) && LastBest(leq, p, s, i)
    ensures LastMax(leq, p, s) == Some(s[i])
  {
    var k := LastMaxIsBest(leq, p, s);
    LastBestIsUnique(leq, p, s, i, k);
  }

  /** Overwriting in sorted order leaves the latest of the largest elements. */
  lemma {:induction false} LastOfSorted<T(!new)>(leq: (T, T) -> bool, p: T -> bool, s: seq<T>)
    requires TotalPreorder(leq)
    ensures LastWhere(p, Sort(leq, s)) == LastMax(leq, p, s)
  {
    if s != [] {
      var t, x := s[..|s| - 1], s[|s| - 1];
      LastOfSorted(leq, p, t);
      SortSorts(leq, t);
      LastOfInsert(leq, p, Sort(leq, t), x);
    }
  }

  /** Filtering beforehand is the same as adding the filter to the condition. */
  lemma {:induction false} LastMaxOfFilter<T(!new)>(leq: (T, T) -> bool, p: T -> bool, q: T -> bool, both: T -> bool, s: seq<T>)
    requires forall x :: both(x) <==> p(x) && q(x)
    ensures LastMax(leq, p, Filter(q, s)) == LastMax(leq, both, s)
  {
    if s != [] {
      var t, x := s[..|s| - 1], s[|s| - 1];
      LastMaxOfFilter(leq, p, q, both, t);
      if q(x) {
        assert (Filter(q, t) + [x])[..|Filter(q, t)|] == Filter(q, t);
      }
    }
  }
}
