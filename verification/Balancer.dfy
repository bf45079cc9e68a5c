/** The load balancer: health filter, then one of the selection algorithms. */
module Balancer {
  import opened Wrappers
  import opened Wheel
  import opened HashRing
  import opened Health

  datatype Algorithm = RoundRobin | ConsistentHashing | LeastConnections | Latency

  datatype Target = Target(address: string, weight: int)

  /** usize on the 64-bit platforms the gateway runs on; fetch_add wraps at this bound. */
  const INDEX_RANGE := 0x1_0000_0000_0000_0000

  predicate Weighted(targets: seq<Target>) {
    forall i :: 0 <= i < |targets| ==> targets[i].weight > 0
  }

  /** A selection of target indices, in ascending order. */
  predicate Selection(targets: seq<Target>, hs: seq<nat>) {
    && (forall k :: 0 <= k < |hs| ==> hs[k] < |targets|)
    && (forall k, l :: 0 <= k < l < |hs| ==> hs[k] < hs[l])
  }

  function WeightsOf(targets: seq<Target>, hs: seq<nat>): (ws: seq<nat>)
    requires Weighted(targets) && Selection(targets, hs)
    ensures |ws| == |hs| && forall k :: 0 <= k < |hs| ==> ws[k] == targets[hs[k]].weight
  {
    seq(|hs|, k requires 0 <= k < |hs| => targets[hs[k]].weight as nat)
  }

  function Divisor(targets: seq<Target>, hs: seq<nat>): (g: nat)
    requires Weighted(targets) && Selection(targets, hs) && hs != []
    ensures g > 0
  {
    var ws := WeightsOf(targets, hs);
    assert ws[0] > 0;
    GcdAll(ws)
  }

  /** The slots of one turn, as positions in hs. */
  function Slots(targets: seq<Target>, hs: seq<nat>): (wheel: seq<nat>)
    requires Weighted(targets) && Selection(targets, hs) && hs != []
  {
    Spin(Reduced(WeightsOf(targets, hs), Divisor(targets, hs)))
  }

  /** A turn has total/g slots, and target hs[k] has weight/g of them, where g is the greatest
      common divisor of the weights. */
  lemma SlotShares(targets: seq<Target>, hs: seq<nat>, k: nat)
    requires Weighted(targets) && Selection(targets, hs) && k < |hs|
    ensures var g, wheel := Divisor(targets, hs), Slots(targets, hs);
            && |wheel| == Sum(WeightsOf(targets, hs)) / g && wheel != []
            && Divides(g, targets[hs[k]].weight) && multiset(wheel)[k] == targets[hs[k]].weight / g
            && (forall i :: 0 <= i < |wheel| ==> wheel[i] < |hs|)
  {
    var ws, g := WeightsOf(targets, hs), Divisor(targets, hs);
    GcdAllIsGreatest(ws, g);
    assert Divides(g, g);
    SumReduced(ws, g);
    SpinCounts(Reduced(ws, g), k);
    assert ws[k] > 0;
    SumPositive(ws);
  }

  /** Every common divisor of the selected weights divides the divisor used. */
  lemma DivisorIsGreatest(targets: seq<Target>, hs: seq<nat>, d: nat)
    requires Weighted(targets) && Selection(targets, hs) && hs != [] && d > 0
    requires forall k :: 0 <= k < |hs| ==> Divides(d, targets[hs[k]].weight)
    ensures Divides(d, Divisor(targets, hs))
  {
    GcdAllIsGreatest(WeightsOf(targets, hs), d);
  }

  /** The shares of the selected targets: their weights over the divisor. */
  function Shares(targets: seq<Target>, hs: seq<nat>): seq<nat>
    requires Weighted(targets) && Selection(targets, hs) && hs != []
  {
    Reduced(WeightsOf(targets, hs), Divisor(targets, hs))
  }

  /** Some two picks in a row go to the same target. */
  ghost predicate PicksRepeat(targets: seq<Target>, hs: seq<nat>, i: nat, pick: nat)
    requires Weighted(targets) && Selection(targets, hs)
  {
    PickedFrom(targets, hs, i, pick) && PickedFrom(targets, hs, i + 1, pick)
  }

  /** From no index do two picks in a row hit the same target, exactly when the target with most
      shares (the last of them on a tie) is not the first selected and has a rival with as many
      shares, or a later one with one fewer. */
  lemma PicksNeverRepeatExactlyWhen(targets: seq<Target>, hs: seq<nat>)
    requires Weighted(targets) && Selection(targets, hs) && |hs| >= 2
    ensures (forall i: nat, pick: nat :: !PicksRepeat(targets, hs, i, pick))
            <==> Best(Shares(targets, hs)) != 0 && HasRival(Shares(targets, hs))
  {
    var ws, g := WeightsOf(targets, hs), Divisor(targets, hs);
    forall k | 0 <= k < |hs|
      ensures ws[k] / g >= 1
    {
      SlotShares(targets, hs, k);
      QuotientTimes(g, ws[k]);
    }
    NeverRepeatsExactlyWhen(Shares(targets, hs));
    SlotShares(targets, hs, 0);
    PicksAreSlots(targets, hs, Slots(targets, hs));
  }

  lemma PicksAreSlots(targets: seq<Target>, hs: seq<nat>, wheel: seq<nat>)
    requires Weighted(targets) && Selection(targets, hs) && hs != [] && wheel == Slots(targets, hs) && wheel != []
    requires forall i :: 0 <= i < |wheel| ==> wheel[i] < |hs|
    ensures (forall i: nat, pick: nat :: !PicksRepeat(targets, hs, i, pick)) <==> NeverRepeats(wheel)
  {
    forall i: nat
      ensures RepeatsAt(wheel, i) <==> PicksRepeat(targets, hs, i, hs[wheel[i % |wheel|]])
    {
      var a, b := wheel[i % |wheel|], wheel[(i + 1) % |wheel|];
      assert a < b ==> hs[a] < hs[b];
      assert b < a ==> hs[b] < hs[a];
    }
    forall i: nat, pick: nat | PicksRepeat(targets, hs, i, pick)
      ensures pick == hs[wheel[i % |wheel|]]
    {
    }
  }

  class LoadBalancer {
    var targets: seq<Target>
    const algorithm: Algorithm
    const upstream: string
    const keyHash: string -> nat
    const nodeHash: (string, nat) -> nat
    const slots: nat
    var checker: HealthChecker?
    var rrIndex: nat
    var ring: seq<Node>
    var connections: seq<nat>

    ghost predicate Valid()
      reads this
    {
      && Weighted(targets)
      && |connections| == |targets|
      && rrIndex < INDEX_RANGE
      && RingFits(algorithm, ring, nodeHash, targets, slots)
    }

    /** Targets of weight zero or less never enter the balancer. */
    constructor (algorithm: Algorithm, upstream: string, slots: nat, configured: seq<Target>,
                 keyHash: string -> nat, nodeHash: (string, nat) -> nat)
      ensures Valid() && rrIndex == 0 && checker == null
      ensures this.algorithm == algorithm && this.upstream == upstream
      ensures this.keyHash == keyHash && this.nodeHash == nodeHash
      ensures this.slots == slots
      ensures targets == Positive(configured)
      ensures KeepsWeighted(configured, targets)
      ensures forall i :: 0 <= i < |connections| ==> connections[i] == 0
    {
      var kept: seq<Target> := [];
      for i := 0 to |configured|
        invariant kept == Positive(configured[..i])
      {
        assert configured[..i + 1][..i] == configured[..i];
        if configured[i].weight > 0 {
          kept := kept + [configured[i]];
        }
      }
      assert configured[..|configured|] == configured;
      var nodes := RingFor(algorithm, nodeHash, kept, slots);
      PositiveCounts(configured);
      this.slots := slots;
      this.targets := kept;
      this.algorithm := algorithm;
      this.upstream := upstream;
      this.keyHash := keyHash;
      this.nodeHash := nodeHash;
      this.checker := null;
      this.rrIndex := 0;
      this.ring := nodes;
      this.connections := seq(|kept|, _ => 0);
    }

    predicate IsUp(i: nat)
      reads this`targets, this`checker, checker
      requires i < |targets|
    {
      checker == null || checker.IsHealthy(upstream, targets[i].address)
    }

    function HealthyUpTo(n: nat): (hs: seq<nat>)
      reads this`targets, this`checker, checker
      requires n <= |targets|
      ensures Selection(targets, hs)
      ensures forall k :: 0 <= k < |hs| ==> hs[k] < n && IsUp(hs[k])
      ensures forall i :: 0 <= i < n && IsUp(i) ==> i in hs
    {
      if n == 0 then []
      else if IsUp(n - 1) then HealthyUpTo(n - 1) + [n - 1]
      else HealthyUpTo(n - 1)
    }

    ghost predicate AnyUp()
      reads this`targets, this`checker, checker
    {
      exists i :: 0 <= i < |targets| && IsUp(i)
    }

    method GetHealthyIndices() returns (hs: seq<nat>)
      ensures hs == HealthyUpTo(|targets|)
      ensures hs != [] <==> AnyUp()
    {
      hs := [];
      for i := 0 to |targets|
        invariant hs == HealthyUpTo(i)
      {
        if IsUp(i) {
          hs := hs + [i];
        }
      }
      if hs != [] {
        assert IsUp(hs[0]);
      }
    }

    /** One pick of the wheel over the selected targets. */
    method WeightedRoundRobin(hs: seq<nat>) returns (r: Option<nat>)
      requires Valid() && Selection(targets, hs)
      modifies this`rrIndex
      ensures Valid()
      ensures hs == [] ==> r == None
      ensures hs != [] ==> r.Some? && r.value in hs && Turned(targets, hs, old(rrIndex), r.value)
      ensures rrIndex == if |hs| >= 2 then Bump(old(rrIndex)) else old(rrIndex)
      ensures |hs| >= 2 ==> rrIndex == (old(rrIndex) + 1) % 0x1_0000_0000_0000_0000
    {
      if hs == [] {
        return None;
      }
      if |hs| == 1 {
        return Some(hs[0]);
      }
      var weights := WeightsOf(targets, hs);
      assert weights[0] > 0;
      SumPositive(weights);
      if Sum(weights) == 0 {
        // The guard for a total of zero; targets of weight zero never enter the balancer.
        assert false;
      } else {
        var wheel := BuildWheel(targets, hs);
        var idx := rrIndex;
        rrIndex := (rrIndex + 1) % INDEX_RANGE;
        WrapsAround(idx);
        r := Some(wheel[idx % |wheel|]);
      }
    }

    method ConsistentHashSelect(key: Option<string>, hs: seq<nat>) returns (r: Option<nat>)
      requires Valid() && Selection(targets, hs)
      modifies this`rrIndex
      ensures Valid()
      ensures hs == [] ==> r == None && rrIndex == old(rrIndex)
      ensures hs != [] ==> r.Some? && r.value in hs
      ensures hs != [] && ring != [] ==>
                && rrIndex == old(rrIndex)
                && OwnerOf(ring, keyHash(KeyText(key)), Elements(hs)) == r
                && (key == None ==> OwnerOf(ring, keyHash("default"), Elements(hs)) == r)
                && (key.Some? ==> OwnerOf(ring, keyHash(key.value), Elements(hs)) == r)
    {
      if hs == [] {
        return None;
      }
      var hash := keyHash(KeyText(key));
      if ring == [] {
        r := WeightedRoundRobin(hs);
        return;
      }
      var found, at := BinarySearch(ring, hash);
      var pos := if found then at else at % |ring|;
      assert hs[0] in Elements(hs);
      WalkSucceeds(ring, |targets|, pos, Elements(hs));
      var node := Walk(ring, pos, hs);
      r := Some(ring[node.value].target);
      assert pos == StartFor(ring, hash);
    }

    /** The first of the least loaded. */
    method LeastConnectionsSelect(hs: seq<nat>) returns (r: Option<nat>)
      requires Valid() && Selection(targets, hs)
      ensures hs == [] ==> r == None
      ensures hs != [] ==> r.Some? && r.value in hs
      ensures r.Some? ==> forall k :: 0 <= k < |hs| ==> IsLighter(connections, targets, r.value, hs[k])
    {
      if hs == [] {
        return None;
      }
      var least: Option<nat> := None;
      var best := hs[0];
      for k := 0 to |hs|
        invariant best in hs && (k == 0 ==> least.None?)
        invariant k > 0 ==> least == Some(connections[best] * 100 / targets[best].weight)
        invariant forall l :: 0 <= l < k ==> IsLighter(connections, targets, best, hs[l])
        invariant k > 0 ==> best <= hs[k - 1]
      {
        var effective := connections[hs[k]] * 100 / targets[hs[k]].weight;
        if least.None? || effective < least.value {
          least := Some(effective);
          best := hs[k];
        }
      }
      r := Some(best);
    }

    /** r is what the algorithm picks among hs at round-robin index idx. */
    ghost predicate Chosen(key: Option<string>, hs: seq<nat>, idx: nat, r: nat)
      reads this`targets, this`connections, this`ring
      requires Weighted(targets) && Selection(targets, hs) && |connections| == |targets|
    {
      match algorithm
      case ConsistentHashing => ring != [] && OwnerOf(ring, keyHash(KeyText(key)), Elements(hs)) == Some(r)
      case LeastConnections =>
        r in hs && forall k :: 0 <= k < |hs| ==> IsLighter(connections, targets, r, hs[k])
      case _ => Turned(targets, hs, idx, r)
    }

    /** Only the wheel moves the index, and only if it has a choice. */
    function NextIndex(hs: seq<nat>, idx: nat): nat {
      if (algorithm == RoundRobin || algorithm == Latency) && |hs| >= 2 then Bump(idx) else idx
    }

    /** The algorithm's pick among the healthy targets hs. */
    method SelectAmong(key: Option<string>, hs: seq<nat>) returns (r: nat)
      requires Valid() && Selection(targets, hs) && hs != []
      modifies this`rrIndex
      ensures Valid() && r in hs && Chosen(key, hs, old(rrIndex), r)
      ensures rrIndex == NextIndex(hs, old(rrIndex))
    {
      var pick: Option<nat>;
      match algorithm {
        case RoundRobin => pick := WeightedRoundRobin(hs);
        case ConsistentHashing =>
          assert OnRing(ring, hs[0]);
          pick := ConsistentHashSelect(key, hs);
        case LeastConnections => pick := LeastConnectionsSelect(hs);
        case Latency => pick := WeightedRoundRobin(hs);
      }
      r := pick.value;
    }

    /** The pick is the algorithm's among the healthy targets, and so healthy, whenever one of them
        is; when none is, the wheel turns over all targets, and None means that there are none.
        The ghost result is the index of the target picked. */
    method SelectWithKey(key: Option<string>) returns (r: Option<string>, ghost at: nat)
      requires Valid()
      modifies this`rrIndex
      ensures Valid()
      ensures targets == [] ==> r == None && rrIndex == old(rrIndex)
      ensures targets != [] ==> at < |targets| && r == Some(targets[at].address)
      ensures var hs := old(HealthyUpTo(|targets|));
              && (hs != [] ==> at in hs && Chosen(key, hs, old(rrIndex), at) && rrIndex == NextIndex(hs, old(rrIndex)))
              && (hs == [] && targets != [] ==> Turned(targets, AllOf(targets), old(rrIndex), at))
      ensures old(AnyUp()) ==> r.Some? && old(IsUp(at))
    {
      if targets == [] {
        return None, 0;
      }
      var hs := GetHealthyIndices();
      assert forall k :: 0 <= k < |hs| ==> IsUp(hs[k]);
      var pick := SelectOrFallBack(key, hs);
      return Some(targets[pick].address), pick;
    }

    /** With no healthy target left, every target is eligible. */
    method SelectOrFallBack(key: Option<string>, hs: seq<nat>) returns (r: nat)
      requires Valid() && Selection(targets, hs) && targets != []
      modifies this`rrIndex
      ensures Valid() && r < |targets|
      ensures hs != [] ==> r in hs && Chosen(key, hs, old(rrIndex), r) && rrIndex == NextIndex(hs, old(rrIndex))
      ensures hs == [] ==> Turned(targets, AllOf(targets), old(rrIndex), r)
    {
      if hs == [] {
        var p := WeightedRoundRobin(AllOf(targets));
        r := p.value;
      } else {
        r := SelectAmong(key, hs);
      }
    }

    /** A run of n picks over an unchanged selection. */
    method PickRepeatedly(hs: seq<nat>, n: nat) returns (picks: seq<nat>)
      requires Valid() && Selection(targets, hs) && |hs| >= 2
      requires rrIndex + n < INDEX_RANGE
      modifies this`rrIndex
      ensures Valid() && |picks| == n && rrIndex == old(rrIndex) + n
      ensures forall k :: 0 <= k < n ==> PickedFrom(targets, hs, old(rrIndex) + k, picks[k])
    {
      picks := [];
      for i := 0 to n
        invariant Valid() && |picks| == i && rrIndex == old(rrIndex) + i
        invariant forall k :: 0 <= k < i ==> PickedFrom(targets, hs, old(rrIndex) + k, picks[k])
      {
        var r := WeightedRoundRobin(hs);
        assert PickedFrom(targets, hs, old(rrIndex) + i, r.value);
        picks := picks + [r.value];
      }
    }
  }

  function Positive(ts: seq<Target>): (r: seq<Target>)
    ensures Weighted(r)
  {
    if ts == [] then []
    else
      var front := Positive(ts[..|ts| - 1]);
      if ts[|ts| - 1].weight > 0 then front + [ts[|ts| - 1]] else front
  }

  /** Consistent hashing has a ring with the targets' nodes in proportion to their weights; the other
      algorithms have none. */
  ghost predicate RingFits(algorithm: Algorithm, ring: seq<Node>, nodeHash: (string, nat) -> nat, targets: seq<Target>, slots: nat)
    requires Weighted(targets)
  {
    if algorithm == ConsistentHashing && targets != [] then
      && RingOk(ring, |targets|)
      && InProportion(ring, nodeHash, Addresses(targets), Weights(targets), slots, Sum(Weights(targets)))
    else ring == []
  }

  method RingFor(algorithm: Algorithm, nodeHash: (string, nat) -> nat, targets: seq<Target>, slots: nat) returns (ring: seq<Node>)
    requires Weighted(targets)
    ensures RingFits(algorithm, ring, nodeHash, targets, slots)
  {
    ring := [];
    if algorithm == ConsistentHashing {
      var weights := Weights(targets);
      if targets != [] {
        assert weights[0] > 0;
        SumPositive(weights);
      }
      ring := BuildHashRing(nodeHash, Addresses(targets), weights, slots, Sum(weights));
    }
  }

  function Addresses(ts: seq<Target>): (r: seq<string>)
    ensures |r| == |ts| && forall i :: 0 <= i < |ts| ==> r[i] == ts[i].address
  {
    seq(|ts|, i requires 0 <= i < |ts| => ts[i].address)
  }

  function Weights(ts: seq<Target>): (r: seq<nat>)
    requires Weighted(ts)
    ensures |r| == |ts| && forall i :: 0 <= i < |ts| ==> r[i] == ts[i].weight
  {
    seq(|ts|, i requires 0 <= i < |ts| => ts[i].weight as nat)
  }

  lemma {:induction false} PositiveCounts(ts: seq<Target>)
    ensures KeepsWeighted(ts, Positive(ts))
  {
    if ts != [] {
      var front := ts[..|ts| - 1];
      PositiveCounts(front);
      assert ts == front + [ts[|ts| - 1]];
    }
  }

  /** Every target of positive weight is kept as often as it is configured, and no other. */
  ghost predicate KeepsWeighted(configured: seq<Target>, kept: seq<Target>) {
    forall t: Target :: multiset(kept)[t] == if t.weight > 0 then multiset(configured)[t] else 0
  }

  /** Target a has fewer connections per unit of weight than b, in hundredths rounded down, or as few
      and is not behind b. */
  predicate IsLighter(connections: seq<nat>, targets: seq<Target>, a: nat, b: nat)
    requires |connections| == |targets| && Weighted(targets) && a < |targets| && b < |targets|
  {
    var x, y := connections[a] * 100 / targets[a].weight, connections[b] * 100 / targets[b].weight;
    x < y || (x == y && a <= b)
  }

  /** Fewer connections per unit of weight is lighter, and lighter is fewer up to a hundredth. */
  lemma LighterIsFewerPerWeight(connections: seq<nat>, targets: seq<Target>, a: nat, b: nat)
    requires |connections| == |targets| && Weighted(targets) && a < |targets| && b < |targets|
    ensures connections[a] * targets[b].weight <= connections[b] * targets[a].weight && a <= b ==> IsLighter(connections, targets, a, b)
    ensures IsLighter(connections, targets, a, b) ==>
              connections[a] * 100 * targets[b].weight < (connections[b] * 100 + targets[b].weight) * targets[a].weight
  {
    RatiosCompare(connections[a] * 100, targets[a].weight, connections[b] * 100, targets[b].weight);
    assert connections[a] * 100 * targets[b].weight == connections[a] * targets[b].weight * 100;
    assert connections[b] * 100 * targets[a].weight == connections[b] * targets[a].weight * 100;
  }

  lemma RatiosCompare(m: nat, v: nat, n: nat, w: nat)
    requires v > 0 && w > 0
    ensures m * w <= n * v ==> m / v <= n / w
    ensures m / v <= n / w ==> m * w < (n + w) * v
  {
    var x, y := m / v, n / w;
    Quotient(m, v, x);
    Quotient(m, v, x + 1);
    Quotient(n, w, x);
    Quotient(n, w, y);
    if m * w <= n * v {
      SmallerRatio(m, v, n, w, x);
    }
    if x <= y {
      RatioWithin(m, v, n, w, y + 1);
    }
  }

  lemma SmallerRatio(m: nat, v: nat, n: nat, w: nat, x: nat)
    requires v > 0 && x * v <= m && m * w <= n * v
    ensures x * w <= n
  {
    TimesMonotonic(x * v, m, w);
    assert x * v * w == x * w * v;
    if x * w > n {
      TimesMonotonic(n + 1, x * w, v);
      assert (n + 1) * v == n * v + v;
    }
  }

  lemma RatioWithin(m: nat, v: nat, n: nat, w: nat, y: nat)
    requires v > 0 && w > 0 && y > 0 && (y - 1) * w <= n && m / v <= y - 1
    ensures m * w < (n + w) * v
  {
    Quotient(m, v, y);
    assert m + 1 <= y * v;
    TimesMonotonic(m + 1, y * v, w);
    assert (m + 1) * w == m * w + w;
    assert (y - 1) * w == y * w - w;
    TimesMonotonic(y * w, n + w, v);
    assert y * v * w == y * w * v;
  }

  function KeyText(key: Option<string>): string {
    if key.Some? then key.value else "default"
  }

  /** The round-robin index after idx; it wraps around. */
  function Bump(idx: nat): nat {
    if idx + 1 == INDEX_RANGE then 0 else idx + 1
  }

  lemma WrapsAround(idx: nat)
    requires idx < INDEX_RANGE
    ensures (idx + 1) % INDEX_RANGE == Bump(idx)
  {
  }

  /** All targets, by index. */
  function AllOf(targets: seq<Target>): (hs: seq<nat>)
    ensures Selection(targets, hs) && |hs| == |targets|
  {
    seq(|targets|, i => i)
  }

  /** The wheel's pick at index idx: a single target is picked without turning. */
  ghost predicate Turned(targets: seq<Target>, hs: seq<nat>, idx: nat, pick: nat)
    requires Weighted(targets) && Selection(targets, hs)
  {
    if |hs| == 1 then pick == hs[0] else PickedFrom(targets, hs, idx, pick)
  }

  /** The pick that round-robin index idx makes. */
  ghost predicate PickedFrom(targets: seq<Target>, hs: seq<nat>, idx: nat, pick: nat)
    requires Weighted(targets) && Selection(targets, hs)
  {
    hs != [] && Slots(targets, hs) != [] &&
    var slot := Slots(targets, hs)[idx % |Slots(targets, hs)|];
    slot < |hs| && pick == hs[slot]
  }

  /** Consistent hashing disturbs minimally: the pick for a key stays the pick under every smaller
      healthy selection that still contains it, whatever the round-robin index. */
  lemma KeyStaysPut(lb: LoadBalancer, key: Option<string>, hs: seq<nat>, fewer: seq<nat>, idx: nat, idx': nat, r: nat, r': nat)
    requires lb.Valid() && lb.algorithm == ConsistentHashing
    requires Selection(lb.targets, hs) && Selection(lb.targets, fewer) && forall t :: t in fewer ==> t in hs
    requires lb.Chosen(key, hs, idx, r) && lb.Chosen(key, fewer, idx', r') && r in fewer
    ensures r' == r
  {
    OwnerStays(lb.ring, lb.keyHash(KeyText(key)), Elements(hs), Elements(fewer), r);
  }

  /** With distinct node hashes the pick for a key has the nearest healthy node clockwise. */
  lemma KeyPicksNearest(lb: LoadBalancer, key: Option<string>, hs: seq<nat>, idx: nat, r: nat) returns (n: nat)
    requires lb.Valid() && lb.algorithm == ConsistentHashing && lb.targets != [] && Distinct(lb.ring)
    requires lb.keyHash(KeyText(key)) < HASH_RANGE && forall i :: 0 <= i < |lb.ring| ==> lb.ring[i].hash < HASH_RANGE
    requires Selection(lb.targets, hs) && lb.Chosen(key, hs, idx, r)
    ensures r in hs && n < |lb.ring| && lb.ring[n].target == r
    ensures forall k :: 0 <= k < |lb.ring| && lb.ring[k].target in hs ==>
              Distance(lb.keyHash(KeyText(key)), lb.ring[n].hash) <= Distance(lb.keyHash(KeyText(key)), lb.ring[k].hash)
  {
    n := OwnerIsNearest(lb.ring, lb.keyHash(KeyText(key)), Elements(hs), r);
  }

  method FoldGcd(weights: seq<nat>) returns (g: nat)
    ensures g == GcdAll(weights)
  {
    g := 0;
    for i := 0 to |weights|
      invariant g == GcdAll(weights[..i])
    {
      assert weights[..i + 1][..i] == weights[..i];
      g := Gcd(g, weights[i]);
    }
    assert weights[..|weights|] == weights;
  }

  /** The wheel over the selected targets, as target indices. */
  method BuildWheel(targets: seq<Target>, hs: seq<nat>) returns (wheel: seq<nat>)
    requires Weighted(targets) && Selection(targets, hs) && hs != []
    ensures wheel != [] && |wheel| == |Slots(targets, hs)|
    ensures forall k :: 0 <= k < |wheel| ==> Slots(targets, hs)[k] < |hs| && wheel[k] == hs[Slots(targets, hs)[k]]
  {
    var weights := WeightsOf(targets, hs);
    SlotShares(targets, hs, 0);
    var g := FoldGcd(weights);
    g := if g > 0 then g else 1;
    wheel := FillWheel(Reduced(weights, g), Sum(weights) / g, hs);
  }

  /** The slot loop: always the target with most slots left, the last of them on a tie. */
  method FillWheel(reduced: seq<nat>, size: nat, hs: seq<nat>) returns (wheel: seq<nat>)
    requires reduced != [] && |hs| == |reduced| && size == Sum(reduced)
    ensures |wheel| == size
    ensures forall k :: 0 <= k < size ==> Spin(reduced)[k] < |hs| && wheel[k] == hs[Spin(reduced)[k]]
  {
    var remaining := reduced;
    ghost var filled: seq<nat> := [];
    wheel := [];
    for i := 0 to size
      invariant |remaining| == |hs| && Sum(remaining) == size - i && |wheel| == |filled| == i
      invariant Spin(reduced) == filled + Spin(remaining)
      invariant forall k :: 0 <= k < i ==> filled[k] < |hs| && wheel[k] == hs[filled[k]]
    {
      var best := MaxByKey(remaining);
      SpinStep(remaining, best, filled);
      wheel := wheel + [hs[best]];
      filled := filled + [best];
      remaining := Take(remaining, best);
    }
  }

  lemma SpinStep(remaining: seq<nat>, best: nat, filled: seq<nat>)
    requires remaining != [] && Sum(remaining) > 0 && best == Best(remaining)
    ensures remaining[best] > 0 && Sum(Take(remaining, best)) == Sum(remaining) - 1
    ensures filled + Spin(remaining) == filled + [best] + Spin(Take(remaining, best))
  {
    SumPositive(remaining);
    SumTake(remaining, best);
    assert Spin(remaining) == [best] + Spin(Take(remaining, best));
  }

  // ---------------------------------------------------------------- fairness of a run

  ghost predicate Turns(hs: seq<nat>, wheel: seq<nat>, idx: nat, pick: nat) {
    wheel != [] && wheel[idx % |wheel|] < |hs| && pick == hs[wheel[idx % |wheel|]]
  }

  lemma {:induction false} PicksAreHits(hs: seq<nat>, wheel: seq<nat>, start: nat, picks: seq<nat>, k: nat)
    requires wheel != [] && k < |hs| && forall i, j :: 0 <= i < j < |hs| ==> hs[i] < hs[j]
    requires forall i :: 0 <= i < |picks| ==> Turns(hs, wheel, start + i, picks[i])
    ensures multiset(picks)[hs[k]] == Hits(wheel, start, |picks|, k)
    decreases |picks|
  {
    if picks != [] {
      var n := |picks| - 1;
      var front, slot := picks[..n], wheel[(start + n) % |wheel|];
      PicksAreHits(hs, wheel, start, front, k);
      assert picks == front + [picks[n]];
      assert Turns(hs, wheel, start + n, picks[n]);
      assert slot < k ==> hs[slot] < hs[k];
      assert k < slot ==> hs[k] < hs[slot];
    }
  }

  /** Any n consecutive picks, from any index, hit every selected target between floor(n/W) and
      ceil(n/W) times weight/g, where g is the greatest common divisor of the selected weights
      and W = total/g; whole turns are hit exactly in proportion. */
  lemma RunIsFair(targets: seq<Target>, hs: seq<nat>, start: nat, picks: seq<nat>, k: nat)
    requires Weighted(targets) && Selection(targets, hs) && k < |hs|
    requires forall i :: 0 <= i < |picks| ==> PickedFrom(targets, hs, start + i, picks[i])
    ensures var g := Divisor(targets, hs);
            var w := Sum(WeightsOf(targets, hs)) / g;
            var share := targets[hs[k]].weight / g;
            && w > 0
            && (|picks| / w) * share <= multiset(picks)[hs[k]]
            && multiset(picks)[hs[k]] <= (|picks| / w + (if |picks| % w == 0 then 0 else 1)) * share
  {
    var wheel := Slots(targets, hs);
    SlotShares(targets, hs, k);
    forall i | 0 <= i < |picks|
      ensures Turns(hs, wheel, start + i, picks[i])
    {
      assert PickedFrom(targets, hs, start + i, picks[i]);
    }
    PicksAreHits(hs, wheel, start, picks, k);
    WheelIsFair(wheel, start, |picks|, k);
  }

  lemma WheelIsFair(wheel: seq<nat>, start: nat, n: nat, k: nat)
    requires wheel != []
    ensures var w := |wheel|;
            && (n / w) * multiset(wheel)[k] <= Hits(wheel, start, n, k)
            && Hits(wheel, start, n, k) <= (n / w + (if n % w == 0 then 0 else 1)) * multiset(wheel)[k]
  {
    FairShare(wheel, start, n, k, n / |wheel|, n % |wheel|);
  }
}
