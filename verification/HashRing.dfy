/** The consistent-hash ring: virtual nodes in proportion to weight, sorted by hash, walked
    clockwise from the key's hash to the first healthy target. */
module HashRing {
  import opened Wrappers
  import opened Sorting
  import Wheel

  const HASH_RANGE := 0x1_0000_0000_0000_0000

  datatype Node = Node(hash: nat, target: nat)

  predicate ByHash(a: Node, b: Node) {
    a.hash <= b.hash
  }

  // ---------------------------------------------------------------- building

  function Max1(n: nat): nat {
    if n < 1 then 1 else n
  }

  function VirtualNodes(weight: nat, slots: nat, total: nat): nat
    requires total > 0
  {
    Max1(weight * slots / total)
  }

  function NodesOf(hash: (string, nat) -> nat, address: string, target: nat, count: nat): (r: seq<Node>)
    ensures |r| == count
    ensures forall i :: 0 <= i < count ==> r[i] == Node(hash(address, i), target)
  {
    seq(count, i requires 0 <= i < count => Node(hash(address, i), target))
  }

  function AllNodes(hash: (string, nat) -> nat, addresses: seq<string>, weights: seq<nat>, slots: nat, total: nat, n: nat): seq<Node>
    requires n <= |addresses| == |weights| && total > 0
  {
    if n == 0 then []
    else AllNodes(hash, addresses, weights, slots, total, n - 1)
         + NodesOf(hash, addresses[n - 1], n - 1, VirtualNodes(weights[n - 1], slots, total))
  }

  // How many nodes of which hash a target has, counted by node index.

  /** A target's node of index i is on the ring. */
  predicate HasNode(weight: nat, slots: nat, total: nat, i: nat) {
    i == 0 || (i + 1) * total <= weight * slots
  }

  /** The indices of a target's nodes on the ring that have the given hash. */
  function NodeIndices(hash: (string, nat) -> nat, address: string, weight: nat, slots: nat, total: nat, h: nat): set<nat> {
    set i: nat | i <= weight * slots && HasNode(weight, slots, total, i) && hash(address, i) == h
  }

  /** Every node is on the ring as often as the indices of its target give it. */
  ghost predicate InProportion(ring: seq<Node>, hash: (string, nat) -> nat, addresses: seq<string>, weights: seq<nat>, slots: nat, total: nat)
    requires |addresses| == |weights|
  {
    forall n: Node :: multiset(ring)[n] ==
      if n.target < |addresses| then |NodeIndices(hash, addresses[n.target], weights[n.target], slots, total, n.hash)| else 0
  }

  lemma NodesCounted(weight: nat, slots: nat, total: nat, i: nat)
    requires total > 0
    ensures i < VirtualNodes(weight, slots, total) <==> HasNode(weight, slots, total, i)
    ensures i < VirtualNodes(weight, slots, total) ==> i <= weight * slots
  {
    Quotient(weight * slots, total, i + 1);
  }

  lemma Quotient(n: nat, d: nat, k: nat)
    requires d > 0
    ensures k <= n / d <==> k * d <= n
    ensures k <= n / d ==> k <= n
  {
    var q, r := n / d, n % d;
    assert n == q * d + r && r < d;
    if k <= q {
      TimesMonotonic(k, q, d);
      TimesMonotonic(1, d, k);
    } else {
      TimesMonotonic(q + 1, k, d);
      assert (q + 1) * d == q * d + d;
    }
  }

  lemma TimesMonotonic(a: nat, b: nat, c: nat)
    requires a <= b
    ensures a * c <= b * c
  {
    assert b * c - a * c == (b - a) * c;
  }

  function FirstIndices(hash: (string, nat) -> nat, address: string, count: nat, h: nat): set<nat> {
    set i: nat | i < count && hash(address, i) == h
  }

  lemma IndicesAreFirst(hash: (string, nat) -> nat, address: string, weight: nat, slots: nat, total: nat, h: nat)
    requires total > 0
    ensures FirstIndices(hash, address, VirtualNodes(weight, slots, total), h) == NodeIndices(hash, address, weight, slots, total, h)
  {
    forall i: nat
      ensures i in FirstIndices(hash, address, VirtualNodes(weight, slots, total), h) <==>
              i in NodeIndices(hash, address, weight, slots, total, h)
    {
      NodesCounted(weight, slots, total, i);
    }
  }

  lemma {:induction false} NodesOfCounts(hash: (string, nat) -> nat, address: string, target: nat, count: nat, n: Node)
    ensures multiset(NodesOf(hash, address, target, count))[n] ==
            if n.target == target then |FirstIndices(hash, address, count, n.hash)| else 0
  {
    if count > 0 {
      var front, i := NodesOf(hash, address, target, count - 1), count - 1;
      NodesOfCounts(hash, address, target, i, n);
      assert NodesOf(hash, address, target, count) == front + [Node(hash(address, i), target)];
      var before := FirstIndices(hash, address, i, n.hash);
      assert i !in before;
      assert FirstIndices(hash, address, count, n.hash) == if hash(address, i) == n.hash then before + {i} else before;
    } else {
      assert FirstIndices(hash, address, count, n.hash) == {};
    }
  }

  lemma {:induction false} AllNodesCount(hash: (string, nat) -> nat, addresses: seq<string>, weights: seq<nat>, slots: nat, total: nat, n: nat, x: Node)
    requires n <= |addresses| == |weights| && total > 0
    ensures multiset(AllNodes(hash, addresses, weights, slots, total, n))[x] ==
            if x.target < n then |NodeIndices(hash, addresses[x.target], weights[x.target], slots, total, x.hash)| else 0
  {
    if n > 0 {
      AllNodesCount(hash, addresses, weights, slots, total, n - 1, x);
      NodesOfCounts(hash, addresses[n - 1], n - 1, VirtualNodes(weights[n - 1], slots, total), x);
      IndicesAreFirst(hash, addresses[n - 1], weights[n - 1], slots, total, x.hash);
    }
  }

  lemma RingInProportion(ring: seq<Node>, hash: (string, nat) -> nat, addresses: seq<string>, weights: seq<nat>, slots: nat, total: nat)
    requires |addresses| == |weights| && total > 0
    requires multiset(ring) == multiset(AllNodes(hash, addresses, weights, slots, total, |addresses|))
    ensures InProportion(ring, hash, addresses, weights, slots, total)
  {
    forall n: Node
      ensures multiset(ring)[n] ==
        if n.target < |addresses| then |NodeIndices(hash, addresses[n.target], weights[n.target], slots, total, n.hash)| else 0
    {
      AllNodesCount(hash, addresses, weights, slots, total, |addresses|, n);
    }
  }

  ghost predicate OnRing(ring: seq<Node>, t: nat) {
    exists i :: 0 <= i < |ring| && ring[i].target == t
  }

  /** What the selection relies on: sorted, only known targets, and every target present. */
  ghost predicate RingOk(ring: seq<Node>, targets: nat) {
    && Sorted(ByHash, ring)
    && (forall i :: 0 <= i < |ring| ==> ring[i].target < targets)
    && (forall t :: 0 <= t < targets ==> OnRing(ring, t))
  }

  lemma {:induction false} AllNodesCover(hash: (string, nat) -> nat, addresses: seq<string>, weights: seq<nat>, slots: nat, total: nat, n: nat)
    requires n <= |addresses| == |weights| && total > 0
    ensures forall x :: x in AllNodes(hash, addresses, weights, slots, total, n) ==> x.target < n
    ensures forall t :: 0 <= t < n ==> Node(hash(addresses[t], 0), t) in AllNodes(hash, addresses, weights, slots, total, n)
  {
    if n > 0 {
      AllNodesCover(hash, addresses, weights, slots, total, n - 1);
      var last := NodesOf(hash, addresses[n - 1], n - 1, VirtualNodes(weights[n - 1], slots, total));
      assert last[0] == Node(hash(addresses[n - 1], 0), n - 1);
    }
  }

  lemma SortedRingOk(hash: (string, nat) -> nat, addresses: seq<string>, weights: seq<nat>, slots: nat, total: nat)
    requires |addresses| == |weights| && total > 0
    ensures RingOk(Sort(ByHash, AllNodes(hash, addresses, weights, slots, total, |addresses|)), |addresses|)
  {
    var nodes := AllNodes(hash, addresses, weights, slots, total, |addresses|);
    var ring := Sort(ByHash, nodes);
    AllNodesCover(hash, addresses, weights, slots, total, |addresses|);
    SortSorts(ByHash, nodes);
    assert Sorted(ByHash, ring);
    SortKeeps(ByHash, nodes);
    forall i | 0 <= i < |ring|
      ensures ring[i].target < |addresses|
    {
      assert ring[i] in ring && ring[i] in nodes;
    }
    forall t | 0 <= t < |addresses|
      ensures OnRing(ring, t)
    {
      var i :| 0 <= i < |ring| && ring[i] == Node(hash(addresses[t], 0), t);
    }
  }

  method BuildHashRing(hash: (string, nat) -> nat, addresses: seq<string>, weights: seq<nat>, slots: nat, total: nat)
      returns (ring: seq<Node>)
    requires |addresses| == |weights|
    ensures addresses == [] || total == 0 ==> ring == []
    ensures addresses != [] && total > 0 ==>
              && RingOk(ring, |addresses|)
              && multiset(ring) == multiset(AllNodes(hash, addresses, weights, slots, total, |addresses|))
              && InProportion(ring, hash, addresses, weights, slots, total)
  {
    if addresses == [] {
      return [];
    }
    if total == 0 {
      return [];
    }
    ring := [];
    for idx := 0 to |addresses|
      invariant ring == AllNodes(hash, addresses, weights, slots, total, idx)
    {
      var vnodes := weights[idx] * slots / total;
      vnodes := if vnodes < 1 then 1 else vnodes;
      ghost var before := ring;
      for i := 0 to vnodes
        invariant ring == before + NodesOf(hash, addresses[idx], idx, i)
      {
        ring := ring + [Node(hash(addresses[idx], i), idx)];
        assert NodesOf(hash, addresses[idx], idx, i + 1) == NodesOf(hash, addresses[idx], idx, i) + [Node(hash(addresses[idx], i), idx)];
      }
    }
    SortedRingOk(hash, addresses, weights, slots, total);
    SortPermutes(ByHash, ring);
    ring := Sort(ByHash, ring);
    RingInProportion(ring, hash, addresses, weights, slots, total);
  }

  // ---------------------------------------------------------------- selecting

  /** What a binary search by hash may return: any exact hit, else the insertion point. */
  ghost predicate SearchResult(ring: seq<Node>, hash: nat, found: bool, at: nat) {
    if found then at < |ring| && ring[at].hash == hash
    else
      && at <= |ring|
      && (forall i :: 0 <= i < at ==> ring[i].hash < hash)
      && (forall i :: at <= i < |ring| ==> hash < ring[i].hash)
  }

  /** Bisection between lo and hi. The library does not say which of several nodes with equal hashes
      its search returns, only that the same search returns the same one. */
  function Bisect(ring: seq<Node>, hash: nat, lo: nat, hi: nat): (r: (bool, nat))
    requires lo <= hi <= |ring|
    ensures r.1 <= |ring| && (r.0 ==> r.1 < |ring|)
    decreases hi - lo
  {
    if lo == hi then (false, lo)
    else
      var mid := (lo + hi) / 2;
      if ring[mid].hash == hash then (true, mid)
      else if ring[mid].hash < hash then Bisect(ring, hash, mid + 1, hi)
      else Bisect(ring, hash, lo, mid)
  }

  ghost predicate Between(ring: seq<Node>, hash: nat, lo: nat, hi: nat) {
    && lo <= hi <= |ring|
    && (forall i :: 0 <= i < lo ==> ring[i].hash < hash)
    && (forall i :: hi <= i < |ring| ==> hash < ring[i].hash)
  }

  lemma Narrows(ring: seq<Node>, hash: nat, lo: nat, mid: nat, hi: nat)
    requires Sorted(ByHash, ring) && Between(ring, hash, lo, hi) && lo <= mid < hi
    ensures ring[mid].hash < hash ==> Between(ring, hash, mid + 1, hi)
    ensures hash < ring[mid].hash ==> Between(ring, hash, lo, mid)
  {
    assert forall i :: 0 <= i < mid ==> ByHash(ring[i], ring[mid]);
    assert forall i :: mid < i < |ring| ==> ByHash(ring[mid], ring[i]);
  }

  method BinarySearch(ring: seq<Node>, hash: nat) returns (found: bool, at: nat)
    requires Sorted(ByHash, ring)
    ensures SearchResult(ring, hash, found, at)
    ensures (found, at) == Bisect(ring, hash, 0, |ring|)
  {
    BisectFinds(ring, hash, 0, |ring|);
    var lo: nat, hi: nat := 0, |ring|;
    while lo < hi
      invariant lo <= hi <= |ring|
      invariant Bisect(ring, hash, lo, hi) == Bisect(ring, hash, 0, |ring|)
    {
      var mid := (lo + hi) / 2;
      if ring[mid].hash == hash {
        return true, mid;
      } else if ring[mid].hash < hash {
        lo := mid + 1;
      } else {
        hi := mid;
      }
    }
    return false, lo;
  }

  lemma {:induction false} BisectFinds(ring: seq<Node>, hash: nat, lo: nat, hi: nat)
    requires Sorted(ByHash, ring) && Between(ring, hash, lo, hi)
    ensures var (found, at) := Bisect(ring, hash, lo, hi); SearchResult(ring, hash, found, at)
    decreases hi - lo
  {
    if lo < hi {
      var mid := (lo + hi) / 2;
      Narrows(ring, hash, lo, mid, hi);
      if ring[mid].hash < hash {
        BisectFinds(ring, hash, mid + 1, hi);
      } else if hash < ring[mid].hash {
        BisectFinds(ring, hash, lo, mid);
      }
    }
  }

  /** Where the walk for a hash starts. */
  function StartFor(ring: seq<Node>, hash: nat): (pos: nat)
    requires ring != []
    ensures pos < |ring|
  {
    var (found, at) := Bisect(ring, hash, 0, |ring|);
    if found then at else at % |ring|
  }

  /** Position after offset steps clockwise. */
  function Clockwise(pos: nat, offset: nat, size: nat): (i: nat)
    requires pos < size && offset < size
    ensures i < size
  {
    if pos + offset < size then pos + offset else pos + offset - size
  }

  lemma ClockwiseIsModular(pos: nat, offset: nat, size: nat)
    requires pos < size && offset < size
    ensures (pos + offset) % size == Clockwise(pos, offset, size)
  {
    if pos + offset < size {
      Wheel.SmallMod(pos + offset, size);
    } else {
      Wheel.OneTurnLater(pos + offset - size, size);
      Wheel.SmallMod(pos + offset - size, size);
    }
  }

  /** The walk: the first node from the given offset on whose target is healthy. */
  function FirstHealthy(ring: seq<Node>, pos: nat, healthy: set<nat>, offset: nat): (r: Option<nat>)
    requires pos < |ring| && offset <= |ring|
    ensures r.Some? ==> r.value < |ring| && ring[r.value].target in healthy
    decreases |ring| - offset
  {
    if offset == |ring| then None
    else
      var i := Clockwise(pos, offset, |ring|);
      if ring[i].target in healthy then Some(i) else FirstHealthy(ring, pos, healthy, offset + 1)
  }

  function Elements(s: seq<nat>): (r: set<nat>)
    ensures forall t :: t in r <==> t in s
  {
    set t | t in s
  }

  method Walk(ring: seq<Node>, pos: nat, healthy: seq<nat>) returns (r: Option<nat>)
    requires pos < |ring|
    ensures r == FirstHealthy(ring, pos, Elements(healthy), 0)
  {
    for offset := 0 to |ring|
      invariant FirstHealthy(ring, pos, Elements(healthy), 0) == FirstHealthy(ring, pos, Elements(healthy), offset)
    {
      var idx := (pos + offset) % |ring|;
      ClockwiseIsModular(pos, offset, |ring|);
      if ring[idx].target in healthy {
        return Some(idx);
      }
    }
    return None;
  }

  lemma {:induction false} WalkSees(ring: seq<Node>, pos: nat, healthy: set<nat>, offset: nat, o: nat)
    requires pos < |ring| && offset <= o < |ring| && ring[Clockwise(pos, o, |ring|)].target in healthy
    ensures FirstHealthy(ring, pos, healthy, offset).Some?
    decreases |ring| - offset
  {
    if ring[Clockwise(pos, offset, |ring|)].target !in healthy {
      WalkSees(ring, pos, healthy, offset + 1, o);
    }
  }

  /** Every node is some number of steps clockwise. */
  function Steps(pos: nat, i: nat, size: nat): (o: nat)
    requires pos < size && i < size
    ensures o < size && Clockwise(pos, o, size) == i
  {
    if i >= pos then i - pos else i + size - pos
  }

  /** With every target on the ring the walk always ends at a healthy target: the final
      fallback after the loop is unreachable. */
  lemma WalkSucceeds(ring: seq<Node>, targets: nat, pos: nat, healthy: set<nat>)
    requires RingOk(ring, targets) && pos < |ring| && healthy != {} && forall t :: t in healthy ==> t < targets
    ensures FirstHealthy(ring, pos, healthy, 0).Some?
  {
    var t :| t in healthy;
    assert OnRing(ring, t);
    var i :| 0 <= i < |ring| && ring[i].target == t;
    WalkSees(ring, pos, healthy, 0, Steps(pos, i, |ring|));
  }

  /** Minimal disturbance: taking other targets out of the healthy set does not move a key. */
  lemma {:induction false} MinimalDisturbance(ring: seq<Node>, pos: nat, healthy: set<nat>, fewer: set<nat>, offset: nat)
    requires pos < |ring| && offset <= |ring| && fewer <= healthy
    requires FirstHealthy(ring, pos, healthy, offset).Some?
    requires ring[FirstHealthy(ring, pos, healthy, offset).value].target in fewer
    ensures FirstHealthy(ring, pos, fewer, offset) == FirstHealthy(ring, pos, healthy, offset)
    decreases |ring| - offset
  {
    if ring[Clockwise(pos, offset, |ring|)].target !in healthy {
      MinimalDisturbance(ring, pos, healthy, fewer, offset + 1);
    }
  }

  // ---------------------------------------------------------------- the nearest node

  /** How far node hash x lies clockwise from h on the ring of 64-bit hashes. */
  function Distance(h: nat, x: nat): int {
    if x >= h then x - h else x - h + HASH_RANGE
  }

  /** pos is where a clockwise walk from h starts: the first node at or after h, or the
      beginning of the ring if there is none. */
  ghost predicate StartsAtOrAfter(ring: seq<Node>, h: nat, pos: nat) {
    && pos < |ring|
    && ((forall i :: 0 <= i < |ring| ==> ring[i].hash < h) ==> pos == 0)
    && (!(forall i :: 0 <= i < |ring| ==> ring[i].hash < h) ==>
          (forall i :: 0 <= i < pos ==> ring[i].hash < h) && ring[pos].hash >= h)
  }

  ghost predicate Distinct(ring: seq<Node>) {
    forall i, j :: 0 <= i < j < |ring| ==> ring[i].hash != ring[j].hash
  }

  /** When node hashes are distinct every binary search leads to that start. */
  lemma SearchStarts(ring: seq<Node>, h: nat, found: bool, at: nat)
    requires ring != [] && Sorted(ByHash, ring) && Distinct(ring) && SearchResult(ring, h, found, at)
    ensures StartsAtOrAfter(ring, h, if found then at else at % |ring|)
  {
    if found {
      forall i | 0 <= i < at
        ensures ring[i].hash < h
      {
        assert ByHash(ring[i], ring[at]);
      }
    } else if at == |ring| {
      assert at % |ring| == 0;
    } else {
      assert at % |ring| == at;
    }
  }

  lemma {:induction false} WalkIsFirst(ring: seq<Node>, pos: nat, healthy: set<nat>, offset: nat) returns (o: nat)
    requires pos < |ring| && offset <= |ring| && FirstHealthy(ring, pos, healthy, offset).Some?
    ensures offset <= o < |ring| && FirstHealthy(ring, pos, healthy, offset).value == Clockwise(pos, o, |ring|)
    ensures forall q :: offset <= q < o ==> ring[Clockwise(pos, q, |ring|)].target !in healthy
    decreases |ring| - offset
  {
    if ring[Clockwise(pos, offset, |ring|)].target in healthy {
      o := offset;
    } else {
      o := WalkIsFirst(ring, pos, healthy, offset + 1);
    }
  }

  lemma DistanceGrows(ring: seq<Node>, h: nat, pos: nat, o: nat, q: nat)
    requires Sorted(ByHash, ring) && StartsAtOrAfter(ring, h, pos) && o <= q < |ring|
    requires h < HASH_RANGE && forall i :: 0 <= i < |ring| ==> ring[i].hash < HASH_RANGE
    ensures Distance(h, ring[Clockwise(pos, o, |ring|)].hash) <= Distance(h, ring[Clockwise(pos, q, |ring|)].hash)
  {
    var a, b := Clockwise(pos, o, |ring|), Clockwise(pos, q, |ring|);
    assert a < b ==> ByHash(ring[a], ring[b]);
    assert b < a ==> b < pos <= a;
    if !(forall i :: 0 <= i < |ring| ==> ring[i].hash < h) {
      assert forall i :: pos < i < |ring| ==> ByHash(ring[pos], ring[i]);
    }
  }

  /** The chosen node is the nearest healthy one clockwise from the key. */
  lemma PicksNearest(ring: seq<Node>, h: nat, pos: nat, healthy: set<nat>, k: nat)
    requires Sorted(ByHash, ring) && StartsAtOrAfter(ring, h, pos)
    requires h < HASH_RANGE && forall i :: 0 <= i < |ring| ==> ring[i].hash < HASH_RANGE
    requires k < |ring| && ring[k].target in healthy && FirstHealthy(ring, pos, healthy, 0).Some?
    ensures Distance(h, ring[FirstHealthy(ring, pos, healthy, 0).value].hash) <= Distance(h, ring[k].hash)
  {
    var o := WalkIsFirst(ring, pos, healthy, 0);
    var q := Steps(pos, k, |ring|);
    assert ring[Clockwise(pos, q, |ring|)].target in healthy;
    assert o <= q;
    DistanceGrows(ring, h, pos, o, q);
  }

  // ---------------------------------------------------------------- the owner of a key

  /** The target a key with this hash is sent to. */
  function OwnerOf(ring: seq<Node>, hash: nat, healthy: set<nat>): Option<nat>
    requires ring != []
  {
    var node := FirstHealthy(ring, StartFor(ring, hash), healthy, 0);
    if node.Some? then Some(ring[node.value].target) else None
  }

  /** A key keeps its owner while others leave the healthy set, on every ring, ties included. */
  lemma OwnerStays(ring: seq<Node>, hash: nat, healthy: set<nat>, fewer: set<nat>, t: nat)
    requires ring != [] && OwnerOf(ring, hash, healthy) == Some(t) && t in fewer && fewer <= healthy
    ensures OwnerOf(ring, hash, fewer) == Some(t)
  {
    MinimalDisturbance(ring, StartFor(ring, hash), healthy, fewer, 0);
  }

  /** When node hashes are distinct, the owner has the healthy node nearest clockwise from the key. */
  lemma OwnerIsNearest(ring: seq<Node>, hash: nat, healthy: set<nat>, t: nat) returns (n: nat)
    requires ring != [] && Sorted(ByHash, ring) && Distinct(ring) && OwnerOf(ring, hash, healthy) == Some(t)
    requires hash < HASH_RANGE && forall i :: 0 <= i < |ring| ==> ring[i].hash < HASH_RANGE
    ensures n < |ring| && ring[n].target == t && t in healthy
    ensures forall k :: 0 <= k < |ring| && ring[k].target in healthy ==> Distance(hash, ring[n].hash) <= Distance(hash, ring[k].hash)
  {
    var pos := StartFor(ring, hash);
    n := FirstHealthy(ring, pos, healthy, 0).value;
    BisectFinds(ring, hash, 0, |ring|);
    var (found, at) := Bisect(ring, hash, 0, |ring|);
    SearchStarts(ring, hash, found, at);
    forall k | 0 <= k < |ring| && ring[k].target in healthy
      ensures Distance(hash, ring[n].hash) <= Distance(hash, ring[k].hash)
    {
      PicksNearest(ring, hash, pos, healthy, k);
    }
  }
}
