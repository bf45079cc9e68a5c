/** Cursor pagination over an ascending list of ids: what following the offsets visits, with and
    without a filter applied after fetching. */
module Paging {
  import opened Wrappers
  import opened Sorting
  import opened Arithmetic

  ghost predicate Ascending(ids: seq<nat>) {
    forall i, j :: 0 <= i < j < |ids| ==> ids[i] < ids[j]
  }

  /** The position of the first id above x. */
  function FirstAbove(ids: seq<nat>, x: nat): (r: nat)
    ensures r <= |ids|
  {
    if ids == [] || ids[0] > x then 0 else 1 + FirstAbove(ids[1..], x)
  }

  lemma {:induction false} FirstAboveIs(ids: seq<nat>, x: nat, r: nat)
    requires r == FirstAbove(ids, x)
    ensures r < |ids| ==> ids[r] > x
    ensures forall k :: 0 <= k < r ==> ids[k] <= x
  {
    if ids != [] && ids[0] <= x {
      FirstAboveIs(ids[1..], x, r - 1);
      forall k | 0 <= k < r
        ensures ids[k] <= x
      {
        assert k > 0 ==> ids[k] == ids[1..][k - 1];
      }
    }
  }

  function StartOf(ids: seq<nat>, offset: Option<nat>): (r: nat)
    ensures r <= |ids|
  {
    if offset.Some? then FirstAbove(ids, offset.value) else 0
  }

  function EndOf(ids: seq<nat>, start: nat, limit: nat): (r: nat)
    requires start <= |ids|
    ensures start <= r <= |ids|
  {
    if |ids| - start > limit then start + limit else |ids|
  }

  datatype Page = Page(ids: seq<nat>, next: Option<nat>)

  /** At most limit ids above the offset; the last one is the next offset if more remain. */
  function ListPage(ids: seq<nat>, offset: Option<nat>, limit: nat): Page {
    var start := StartOf(ids, offset);
    var end := EndOf(ids, start, limit);
    Page(ids[start..end], if end < |ids| && limit > 0 then Some(ids[end - 1]) else None)
  }

  /** Ten pages' worth is fetched, the filter applied, and the result cut to one page. */
  function FilteredPage(ids: seq<nat>, keep: nat -> bool, offset: Option<nat>, size: nat): Page {
    CutToPage(Filter(keep, ListPage(ids, offset, 10 * size).ids), size)
  }

  function CutToPage(found: seq<nat>, size: nat): Page {
    if |found| > size then Page(found[..size], if size > 0 then Some(found[size - 1]) else None)
    else Page(found, None)
  }

  function Flatten(pages: seq<seq<nat>>): seq<nat> {
    if pages == [] then [] else pages[0] + Flatten(pages[1..])
  }

  lemma StartAfter(ids: seq<nat>, i: nat)
    requires Ascending(ids) && i < |ids|
    ensures StartOf(ids, Some(ids[i])) == i + 1
  {
    var r := FirstAbove(ids, ids[i]);
    FirstAboveIs(ids, ids[i], r);
    assert i + 1 < |ids| ==> ids[i] < ids[i + 1];
  }

  // ---------------------------------------------------------------- without a filter

  /** The pages a client sees that follows every offset. */
  function Walk(ids: seq<nat>, size: nat, offset: Option<nat>): seq<seq<nat>>
    requires Ascending(ids) && size > 0
    decreases |ids| - StartOf(ids, offset)
  {
    var page := ListPage(ids, offset, size);
    if page.next.None? then [page.ids]
    else
      StartAfter(ids, EndOf(ids, StartOf(ids, offset), size) - 1);
      [page.ids] + Walk(ids, size, page.next)
  }

  function PageCount(rows: nat, size: nat): nat
    requires size > 0
  {
    if rows == 0 then 1 else (rows + size - 1) / size
  }

  lemma {:induction false} WalkFrom(ids: seq<nat>, size: nat, offset: Option<nat>, start: nat)
    requires Ascending(ids) && size > 0 && start == StartOf(ids, offset)
    ensures Flatten(Walk(ids, size, offset)) == ids[start..]
    decreases |ids| - start
  {
    var page := ListPage(ids, offset, size);
    if page.next.Some? {
      NextPageStarts(ids, size, offset, start, page);
      WalkFrom(ids, size, page.next, start + size);
      FlattenMore(Walk(ids, size, offset), page.ids, Walk(ids, size, page.next), ids[start + size..], ids[start..]);
    } else {
      FlattenOne(page.ids);
    }
  }

  lemma FlattenMore(walk: seq<seq<nat>>, page: seq<nat>, later: seq<seq<nat>>, tail: seq<nat>, all: seq<nat>)
    requires walk == [page] + later && Flatten(later) == tail && page + tail == all
    ensures Flatten(walk) == all
  {
    FlattenCons(page, later);
  }

  lemma FlattenOne(page: seq<nat>)
    ensures Flatten([page]) == page
  {
    assert [page][1..] == [] && page + [] == page;
  }

  lemma {:induction false} WalkCount(ids: seq<nat>, size: nat, offset: Option<nat>, start: nat, rest: nat)
    requires Ascending(ids) && size > 0 && start == StartOf(ids, offset) && rest == |ids| - start
    ensures |Walk(ids, size, offset)| == Pages(rest, size)
    decreases rest
  {
    var page := ListPage(ids, offset, size);
    if page.next.Some? {
      NextPageStarts(ids, size, offset, start, page);
      WalkCount(ids, size, page.next, start + size, rest - size);
    }
  }

  /** Pages needed, filling one after the other. */
  function Pages(rest: nat, size: nat): nat
    requires size > 0
  {
    if rest > size then 1 + Pages(rest - size, size) else 1
  }

  lemma {:induction false} PagesAre(rest: nat, size: nat)
    requires size > 0
    ensures Pages(rest, size) == PageCount(rest, size)
  {
    if rest > size {
      PagesAre(rest - size, size);
      var q, r := (rest - 1) / size, (rest - 1) % size;
      assert rest - 1 + size == (q + 1) * size + r;
      DivisionIsUnique(rest - 1 + size, size, q + 1, r);
    } else if rest > 0 {
      DivisionIsUnique(rest + size - 1, size, 1, rest - 1);
    }
  }

  lemma NextPageStarts(ids: seq<nat>, size: nat, offset: Option<nat>, start: nat, page: Page)
    requires Ascending(ids) && size > 0 && start == StartOf(ids, offset)
    requires page == ListPage(ids, offset, size) && page.next.Some?
    ensures start + size < |ids| && StartOf(ids, page.next) == start + size
    ensures page.ids + ids[start + size..] == ids[start..]
  {
    StartAfter(ids, start + size - 1);
    Rejoin(ids, start, start + size);
  }

  lemma Rejoin(ids: seq<nat>, lo: nat, mid: nat)
    requires lo <= mid <= |ids|
    ensures ids[lo..mid] + ids[mid..] == ids[lo..]
  {
  }

  lemma FlattenCons(page: seq<nat>, pages: seq<seq<nat>>)
    ensures Flatten([page] + pages) == page + Flatten(pages)
  {
    assert ([page] + pages)[1..] == pages;
  }

  /** Following the offsets visits every row exactly once, in ascending order, in as few pages as
      hold them. */
  lemma WalkVisitsAll(ids: seq<nat>, size: nat)
    requires Ascending(ids) && size > 0
    ensures Flatten(Walk(ids, size, None)) == ids
    ensures |Walk(ids, size, None)| == PageCount(|ids|, size)
  {
    WalkFrom(ids, size, None, 0);
    WalkCount(ids, size, None, 0, |ids|);
    PagesAre(|ids|, size);
  }

  // ---------------------------------------------------------------- with a filter

  /** The positions in [lo, hi) that the filter keeps. */
  function Hits(keep: nat -> bool, ids: seq<nat>, lo: nat, hi: nat): (r: seq<nat>)
    requires lo <= hi <= |ids|
  {
    if lo == hi then []
    else if keep(ids[hi - 1]) then Hits(keep, ids, lo, hi - 1) + [hi - 1]
    else Hits(keep, ids, lo, hi - 1)
  }

  lemma {:induction false} HitsWithin(keep: nat -> bool, ids: seq<nat>, lo: nat, hi: nat)
    requires lo <= hi <= |ids|
    ensures forall i :: 0 <= i < |Hits(keep, ids, lo, hi)| ==> lo <= Hits(keep, ids, lo, hi)[i] < hi
  {
    if lo < hi {
      HitsWithin(keep, ids, lo, hi - 1);
    }
  }

  lemma {:induction false} HitsSplit(keep: nat -> bool, ids: seq<nat>, lo: nat, mid: nat, hi: nat)
    requires lo <= mid <= hi <= |ids|
    ensures Hits(keep, ids, lo, hi) == Hits(keep, ids, lo, mid) + Hits(keep, ids, mid, hi)
  {
    if mid < hi {
      HitsSplit(keep, ids, lo, mid, hi - 1);
    }
  }

  function At(ids: seq<nat>, ps: seq<nat>): (r: seq<nat>)
    requires forall i :: 0 <= i < |ps| ==> ps[i] < |ids|
    ensures |r| == |ps| && forall i :: 0 <= i < |ps| ==> r[i] == ids[ps[i]]
  {
    seq(|ps|, i requires 0 <= i < |ps| => ids[ps[i]])
  }

  lemma {:induction false} FilterHits(keep: nat -> bool, ids: seq<nat>, lo: nat, hi: nat)
    requires lo <= hi <= |ids|
    ensures forall i :: 0 <= i < |Hits(keep, ids, lo, hi)| ==> Hits(keep, ids, lo, hi)[i] < |ids|
    ensures Filter(keep, ids[lo..hi]) == At(ids, Hits(keep, ids, lo, hi))
  {
    HitsWithin(keep, ids, lo, hi);
    if lo < hi {
      FilterHits(keep, ids, lo, hi - 1);
      assert ids[lo..hi] == ids[lo..hi - 1] + [ids[hi - 1]];
      assert ids[lo..hi][..hi - 1 - lo] == ids[lo..hi - 1];
    }
  }

  lemma {:induction false} HitsAscend(keep: nat -> bool, ids: seq<nat>, lo: nat, hi: nat)
    requires lo <= hi <= |ids|
    ensures Ascending(Hits(keep, ids, lo, hi))
  {
    if lo < hi {
      HitsAscend(keep, ids, lo, hi - 1);
      HitsWithin(keep, ids, lo, hi - 1);
    }
  }

  /** The hits up to and including hit j are the first j + 1. */
  lemma HitsUpTo(keep: nat -> bool, ids: seq<nat>, lo: nat, hi: nat, hits: seq<nat>, j: nat, mid: nat)
    requires lo <= hi <= |ids| && hits == Hits(keep, ids, lo, hi) && j < |hits| && mid == hits[j] + 1
    ensures lo < mid <= hi && Hits(keep, ids, lo, mid) == hits[..j + 1]
  {
    HitsWithin(keep, ids, lo, hi);
    HitsAscend(keep, ids, lo, hi);
    HitsSplit(keep, ids, lo, mid, hi);
    HitsWithin(keep, ids, lo, mid);
    HitsWithin(keep, ids, mid, hi);
    var front := Hits(keep, ids, lo, mid);
    if |front| <= j {
      assert hits[j] == Hits(keep, ids, mid, hi)[j - |front|];
    } else if |front| > j + 1 {
      assert hits[j + 1] == front[j + 1];
    }
  }

  lemma {:induction false} FilterSplit(keep: nat -> bool, ids: seq<nat>, lo: nat, mid: nat, hi: nat)
    requires lo <= mid <= hi <= |ids|
    ensures Filter(keep, ids[lo..hi]) == Filter(keep, ids[lo..mid]) + Filter(keep, ids[mid..hi])
  {
    if mid < hi {
      FilterSplit(keep, ids, lo, mid, hi - 1);
      assert ids[lo..hi][..hi - 1 - lo] == ids[lo..hi - 1];
      assert ids[mid..hi][..hi - 1 - mid] == ids[mid..hi - 1];
    }
  }

  /** One filtered page, in terms of the positions it looks at. */
  lemma FilteredStep(ids: seq<nat>, keep: nat -> bool, offset: Option<nat>, size: nat,
                     start: nat, hi: nat, hits: seq<nat>, page: Page)
    requires Ascending(ids) && size > 0 && start == StartOf(ids, offset) && hi == EndOf(ids, start, 10 * size)
    requires hits == Hits(keep, ids, start, hi) && page == FilteredPage(ids, keep, offset, size)
    ensures page.next.Some? <==> |hits| > size
    ensures page.next.None? ==> page.ids == Filter(keep, ids[start..hi])
    ensures page.next.Some? ==>
              var mid := hits[size - 1] + 1;
              && start < mid <= hi && StartOf(ids, page.next) == mid && page.ids == Filter(keep, ids[start..mid])
  {
    var found := Filter(keep, ids[start..hi]);
    assert page == CutToPage(found, size);
    FilterHits(keep, ids, start, hi);
    if |hits| > size {
      CutIsFilter(ids, keep, start, hi, hits, found, size);
    }
  }

  lemma CutIsFilter(ids: seq<nat>, keep: nat -> bool, start: nat, hi: nat, hits: seq<nat>, found: seq<nat>, size: nat)
    requires Ascending(ids) && start <= hi <= |ids| && hits == Hits(keep, ids, start, hi) && 0 < size < |hits|
    requires found == Filter(keep, ids[start..hi])
    ensures |found| == |hits|
    ensures var mid := hits[size - 1] + 1;
            && start < mid <= hi && found[..size] == Filter(keep, ids[start..mid])
            && StartOf(ids, Some(found[size - 1])) == mid
  {
    var mid := hits[size - 1] + 1;
    FilterHits(keep, ids, start, hi);
    HitsUpTo(keep, ids, start, hi, hits, size - 1, mid);
    FilterHits(keep, ids, start, mid);
    StartAfter(ids, hits[size - 1]);
  }

  /** The pages a client sees that follows every offset of a filtered listing. */
  function FilteredWalk(ids: seq<nat>, keep: nat -> bool, size: nat, offset: Option<nat>): seq<seq<nat>>
    requires Ascending(ids) && size > 0
    decreases |ids| - StartOf(ids, offset)
  {
    var page := FilteredPage(ids, keep, offset, size);
    if page.next.None? then [page.ids]
    else
      var start := StartOf(ids, offset);
      var hi := EndOf(ids, start, 10 * size);
      FilteredStep(ids, keep, offset, size, start, hi, Hits(keep, ids, start, hi), page);
      [page.ids] + FilteredWalk(ids, keep, size, page.next)
  }

  // Whether the walk sees all matches can be read off their positions.

  /** Page k of the matches starts behind the last match of the page before. */
  function PageStart(hits: seq<nat>, size: nat, k: nat): nat
    requires k * size <= |hits| && size > 0
  {
    if k == 0 then 0 else PositiveProduct(k, size); hits[k * size - 1] + 1
  }

  lemma PositiveProduct(k: nat, size: nat)
    requires k > 0 && size > 0
    ensures k * size >= size > 0
  {
  }

  /** Page k of the matches is not empty. */
  predicate Busy(hits: seq<nat>, size: nat, k: nat) {
    k * size < |hits|
  }

  /** The match behind page k, or the last match if page k is the last, is within ten pages' worth
      of rows from where page k starts. */
  predicate Near(hits: seq<nat>, size: nat, k: nat)
    requires size > 0 && Busy(hits, size, k)
  {
    var i := if k * size + size < |hits| then k * size + size else |hits| - 1;
    hits[i] < PageStart(hits, size, k) + 10 * size
  }

  ghost predicate NearFrom(hits: seq<nat>, size: nat, k: nat)
    requires size > 0
  {
    forall j: nat :: j >= k && Busy(hits, size, j) ==> Near(hits, size, j)
  }

  lemma NearFromStep(hits: seq<nat>, size: nat, k: nat)
    requires size > 0
    ensures !Busy(hits, size, k) ==> NearFrom(hits, size, k)
    ensures Busy(hits, size, k) ==> (NearFrom(hits, size, k) <==> Near(hits, size, k) && NearFrom(hits, size, k + 1))
  {
    if !Busy(hits, size, k) {
      forall j: nat | j >= k
        ensures !Busy(hits, size, j)
      {
        assert j * size >= k * size;
      }
    }
  }

  /** The walk's window against the positions of all matches. */
  lemma WindowIsNear(keep: nat -> bool, ids: seq<nat>, size: nat, start: nat, hi: nat, k: nat, all: seq<nat>, hits: seq<nat>)
    requires size > 0 && start <= |ids| && hi == EndOf(ids, start, 10 * size)
    requires all == Hits(keep, ids, 0, |ids|) && hits == Hits(keep, ids, start, hi)
    requires k * size <= |all| && |Hits(keep, ids, 0, start)| == k * size && start == PageStart(all, size, k)
    ensures |hits| > size ==> Busy(all, size, k) && Near(all, size, k) && k * size + size < |all|
                              && all[k * size + size - 1] == hits[size - 1]
    ensures |hits| <= size ==> (NearFrom(all, size, k) <==> Hits(keep, ids, hi, |ids|) == [])
  {
    var before, rest := Hits(keep, ids, 0, start), Hits(keep, ids, hi, |ids|);
    HitsSplit(keep, ids, 0, start, |ids|);
    HitsSplit(keep, ids, start, hi, |ids|);
    HitsWithin(keep, ids, start, hi);
    HitsWithin(keep, ids, hi, |ids|);
    var c := k * size;
    assert forall i :: 0 <= i < |hits| ==> all[c + i] == hits[i];
    assert forall i :: 0 <= i < |rest| ==> all[c + |hits| + i] == rest[i];
    assert |all| == c + |hits| + |rest|;
    if |hits| <= size {
      NearFromStep(all, size, k);
      NearFromStep(all, size, k + 1);
      assert (k + 1) * size == c + size;
    }
  }

  /** The client stands at the start of page k of the matches. */
  ghost predicate AtPage(ids: seq<nat>, keep: nat -> bool, size: nat, start: nat, k: nat, all: seq<nat>) {
    && size > 0 && start <= |ids| && all == Hits(keep, ids, 0, |ids|)
    && k * size <= |all| && |Hits(keep, ids, 0, start)| == k * size && start == PageStart(all, size, k)
  }

  lemma NextPage(ids: seq<nat>, keep: nat -> bool, size: nat, k: nat, all: seq<nat>, mid: nat)
    requires size > 0 && all == Hits(keep, ids, 0, |ids|) && k * size + size < |all| && mid == all[k * size + size - 1] + 1
    ensures AtPage(ids, keep, size, mid, k + 1, all)
  {
    assert (k + 1) * size == k * size + size;
    HitsUpTo(keep, ids, 0, |ids|, all, k * size + size - 1, mid);
  }

  /** What is seen is a prefix of what matches, and all of it exactly when the rest is near. */
  ghost predicate Sees(seen: seq<nat>, matching: seq<nat>, complete: bool) {
    seen <= matching && (seen == matching <==> complete)
  }

  lemma SeesMore(page: seq<nat>, seen: seq<nat>, matching: seq<nat>, complete: bool)
    requires Sees(seen, matching, complete)
    ensures Sees(page + seen, page + matching, complete)
  {
    assert (page + seen)[|page|..] == seen && (page + matching)[|page|..] == matching;
  }

  lemma LastFilteredPage(ids: seq<nat>, keep: nat -> bool, size: nat, offset: Option<nat>, start: nat, k: nat, all: seq<nat>)
    requires Ascending(ids) && AtPage(ids, keep, size, start, k, all) && start == StartOf(ids, offset)
    requires FilteredPage(ids, keep, offset, size).next.None?
    ensures Sees(FilteredPage(ids, keep, offset, size).ids, Filter(keep, ids[start..|ids|]), NearFrom(all, size, k))
  {
    var page, hi := FilteredPage(ids, keep, offset, size), EndOf(ids, start, 10 * size);
    var hits := Hits(keep, ids, start, hi);
    FilteredStep(ids, keep, offset, size, start, hi, hits, page);
    WindowIsNear(keep, ids, size, start, hi, k, all, hits);
    FilterSplit(keep, ids, start, hi, |ids|);
    FilterHits(keep, ids, hi, |ids|);
  }

  lemma InnerFilteredPage(ids: seq<nat>, keep: nat -> bool, size: nat, offset: Option<nat>, start: nat, k: nat, all: seq<nat>, page: Page)
    returns (mid: nat)
    requires Ascending(ids) && AtPage(ids, keep, size, start, k, all) && start == StartOf(ids, offset)
    requires page == FilteredPage(ids, keep, offset, size) && page.next.Some?
    ensures start < mid <= |ids| && mid == StartOf(ids, page.next)
    ensures AtPage(ids, keep, size, mid, k + 1, all)
    ensures Filter(keep, ids[start..|ids|]) == page.ids + Filter(keep, ids[mid..|ids|])
    ensures NearFrom(all, size, k) <==> NearFrom(all, size, k + 1)
  {
    var hits;
    hits, mid := InnerSplit(ids, keep, size, offset, start, page);
    FullWindow(ids, keep, size, start, EndOf(ids, start, 10 * size), k, all, hits, mid);
  }

  lemma InnerSplit(ids: seq<nat>, keep: nat -> bool, size: nat, offset: Option<nat>, start: nat, page: Page)
    returns (hits: seq<nat>, mid: nat)
    requires Ascending(ids) && size > 0 && start == StartOf(ids, offset)
    requires page == FilteredPage(ids, keep, offset, size) && page.next.Some?
    ensures hits == Hits(keep, ids, start, EndOf(ids, start, 10 * size)) && |hits| > size && mid == hits[size - 1] + 1
    ensures start < mid <= |ids| && mid == StartOf(ids, page.next)
    ensures Filter(keep, ids[start..|ids|]) == page.ids + Filter(keep, ids[mid..|ids|])
  {
    var hi := EndOf(ids, start, 10 * size);
    hits := Hits(keep, ids, start, hi);
    FilteredStep(ids, keep, offset, size, start, hi, hits, page);
    mid := hits[size - 1] + 1;
    FilterSplit(keep, ids, start, mid, |ids|);
  }

  lemma FullWindow(ids: seq<nat>, keep: nat -> bool, size: nat, start: nat, hi: nat, k: nat, all: seq<nat>, hits: seq<nat>, mid: nat)
    requires AtPage(ids, keep, size, start, k, all) && hi == EndOf(ids, start, 10 * size)
    requires hits == Hits(keep, ids, start, hi) && |hits| > size && mid == hits[size - 1] + 1
    ensures AtPage(ids, keep, size, mid, k + 1, all)
    ensures NearFrom(all, size, k) <==> NearFrom(all, size, k + 1)
  {
    WindowIsNear(keep, ids, size, start, hi, k, all, hits);
    NextPage(ids, keep, size, k, all, mid);
    NearFromStep(all, size, k);
  }

  /** From any page on, the walk sees matches only, in order and without gaps, and it sees all of
      them exactly when every page's matches are near. */
  lemma {:induction false} FilteredFrom(ids: seq<nat>, keep: nat -> bool, size: nat, offset: Option<nat>, start: nat, k: nat, all: seq<nat>)
    requires Ascending(ids) && AtPage(ids, keep, size, start, k, all) && start == StartOf(ids, offset)
    ensures Sees(Flatten(FilteredWalk(ids, keep, size, offset)), Filter(keep, ids[start..|ids|]), NearFrom(all, size, k))
    decreases |ids| - start
  {
    var page := FilteredPage(ids, keep, offset, size);
    if page.next.Some? {
      var mid := InnerFilteredPage(ids, keep, size, offset, start, k, all, page);
      FilteredFrom(ids, keep, size, page.next, mid, k + 1, all);
      var later := FilteredWalk(ids, keep, size, page.next);
      FlattenCons(page.ids, later);
      SeesMore(page.ids, Flatten(later), Filter(keep, ids[mid..|ids|]), NearFrom(all, size, k));
    } else {
      LastFilteredPage(ids, keep, size, offset, start, k, all);
      FlattenCons(page.ids, []);
    }
  }

  /** Following the offsets of a filtered listing visits matching rows only, each once, in ascending
      order and from the first without a gap; it visits all of them exactly when, for every page,
      the matches up to the first of the next page lie within ten pages' worth of rows. */
  lemma FilteredWalkVisitsAllExactlyWhen(ids: seq<nat>, keep: nat -> bool, size: nat)
    requires Ascending(ids) && size > 0
    ensures Flatten(FilteredWalk(ids, keep, size, None)) <= Filter(keep, ids)
    ensures Flatten(FilteredWalk(ids, keep, size, None)) == Filter(keep, ids)
            <==> NearFrom(Hits(keep, ids, 0, |ids|), size, 0)
  {
    assert ids[0..|ids|] == ids;
    FilteredFrom(ids, keep, size, None, 0, 0, Hits(keep, ids, 0, |ids|));
  }

  /** A table of at most ten pages' worth of rows is always visited completely. */
  lemma SmallTablesAreComplete(ids: seq<nat>, keep: nat -> bool, size: nat)
    requires Ascending(ids) && size > 0 && |ids| <= 10 * size
    ensures Flatten(FilteredWalk(ids, keep, size, None)) == Filter(keep, ids)
  {
    HitsWithin(keep, ids, 0, |ids|);
    FilteredWalkVisitsAllExactlyWhen(ids, keep, size);
  }

  /** One row more, and a listing may come back empty although a row matches. */
  lemma LargerTablesMayLoseRows(size: nat) returns (ids: seq<nat>, keep: nat -> bool)
    requires size > 0
    ensures Ascending(ids) && |ids| == 10 * size + 1
    ensures Filter(keep, ids) != [] && Flatten(FilteredWalk(ids, keep, size, None)) == []
  {
    var n := 10 * size;
    ids, keep := seq(n + 1, i => i), (x: nat) => x == n;
    NoHitsBelow(keep, ids, n, n);
    FilterHits(keep, ids, 0, n);
    assert ids[..n] == ids[0..n];
    assert FilteredPage(ids, keep, None, size) == Page([], None);
    FlattenCons([], []);
  }

  lemma {:induction false} NoHitsBelow(keep: nat -> bool, ids: seq<nat>, n: nat, hi: nat)
    requires hi <= n <= |ids| && forall i :: 0 <= i < n ==> !keep(ids[i])
    ensures Hits(keep, ids, 0, hi) == []
  {
    if hi > 0 {
      NoHitsBelow(keep, ids, n, hi - 1);
    }
  }
}
