/** Which plugin instances run for a request: the runtime resolver and the proxy's
    precomputed chains. */
module Plugins {
  import opened Wrappers
  import opened Sorting

  /** A UUID. */
  type Id = nat

  datatype Plugin = Plugin(id: Id, name: string, enabled: bool, route: Option<Id>, service: Option<Id>,
                           consumer: Option<Id>, workspace: Option<Id>, config: string)

  /** What is known of the request when plugins are resolved. */
  datatype Scope = Scope(route: Option<Id>, service: Option<Id>, consumer: Option<Id>)

  datatype Resolved = Resolved(plugin: Plugin, priority: int)

  /** Registered handler name to handler priority. */
  type Registry = map<string, int>

  predicate PluginMatches(p: Plugin, at: Scope) {
    && (p.route.Some? ==> at.route == p.route)
    && (p.service.Some? ==> at.service == p.service)
    && (p.consumer.Some? ==> at.consumer == p.consumer)
  }

  function Bit(b: bool): nat {
    if b then 1 else 0
  }

  /** The sort key (consumer, route, service), compared lexicographically. */
  function Specificity(p: Plugin): nat {
    4 * Bit(p.consumer.Some?) + 2 * Bit(p.route.Some?) + Bit(p.service.Some?)
  }

  predicate NoMoreSpecific(a: Plugin, b: Plugin) {
    Specificity(a) <= Specificity(b)
  }

  predicate HigherFirst(a: Resolved, b: Resolved) {
    a.priority >= b.priority
  }

  predicate Applies(name: string, at: Scope, p: Plugin) {
    p.enabled && p.name == name && PluginMatches(p, at)
  }

  predicate IsEnabled(p: Plugin) {
    p.enabled
  }

  function AppliesTo(name: string, at: Scope): Plugin -> bool {
    (p: Plugin) => Applies(name, at, p)
  }

  function Named(name: string, at: Scope): Plugin -> bool {
    (p: Plugin) => p.name == name && PluginMatches(p, at)
  }

  /** The instance of the named plugin in force: among the enabled matching ones the most
      specific, and of those the last configured. */
  function Effective(plugins: seq<Plugin>, name: string, at: Scope): (r: Option<Plugin>)
    ensures r.Some? ==> r.value in plugins && Applies(name, at, r.value)
  {
    LastMax(NoMoreSpecific, AppliesTo(name, at), plugins)
  }

  lemma SpecificityOrders()
    ensures TotalPreorder(NoMoreSpecific) && TotalPreorder(HigherFirst)
  {
  }

  /** An instance applies when it is enabled and everything it is attached to is the request's own. */
  lemma AppliesExactlyWhen(name: string, at: Scope, p: Plugin)
    ensures Applies(name, at, p) <==>
            && p.enabled && p.name == name
            && p.route in {None, at.route} && p.service in {None, at.service} && p.consumer in {None, at.consumer}
  {
  }

  /** A consumer outweighs a route and a service, and a route a service. */
  lemma MoreSpecificExactlyWhen(a: Plugin, b: Plugin)
    ensures Specificity(a) < Specificity(b) <==>
            if a.consumer.None? != b.consumer.None? then a.consumer.None?
            else if a.route.None? != b.route.None? then a.route.None?
            else a.service.None? && !b.service.None?
  {
  }

  /** The winner has no applicable rival that is more specific, or equally specific and later. */
  lemma EffectiveWins(plugins: seq<Plugin>, name: string, at: Scope) returns (i: nat)
    ensures Effective(plugins, name, at).None? ==> forall j :: 0 <= j < |plugins| ==> !Applies(name, at, plugins[j])
    ensures Effective(plugins, name, at).Some? ==>
              && i < |plugins| && Effective(plugins, name, at) == Some(plugins[i]) && Applies(name, at, plugins[i])
              && forall j :: 0 <= j < |plugins| && Applies(name, at, plugins[j]) ==>
                   Specificity(plugins[j]) < Specificity(plugins[i])
                   || (Specificity(plugins[j]) == Specificity(plugins[i]) && j <= i)
  {
    SpecificityOrders();
    i := LastMaxIsBest(NoMoreSpecific, AppliesTo(name, at), plugins);
  }

  // ---------------------------------------------------------------- the documented order

  /** The documented order: global, service, route, consumer, and above them any combination. */
  function DocumentedRank(p: Plugin): nat {
    if Bit(p.consumer.Some?) + Bit(p.route.Some?) + Bit(p.service.Some?) >= 2 then 4
    else if p.consumer.Some? then 3
    else if p.route.Some? then 2
    else if p.service.Some? then 1
    else 0
  }

  predicate ConsumerOnly(p: Plugin) {
    p.consumer.Some? && p.route.None? && p.service.None?
  }

  predicate RouteAndService(p: Plugin) {
    p.consumer.None? && p.route.Some? && p.service.Some?
  }

  /** The code follows the documented order between any two plugins except that one for a consumer
      alone outranks one for a route and a service. */
  lemma FollowsDocumentedOrderExactlyWhen(a: Plugin, b: Plugin)
    requires DocumentedRank(a) < DocumentedRank(b)
    ensures Specificity(a) < Specificity(b) <==> !(ConsumerOnly(a) && RouteAndService(b))
  {
  }

  /** So the instance in force is one of the highest documented rank among those that apply, exactly
      unless it is for a consumer alone and one for the route and the service applies too. */
  lemma EffectiveIsDocumentedExactlyWhen(plugins: seq<Plugin>, name: string, at: Scope)
    requires Effective(plugins, name, at).Some?
    ensures var w := Effective(plugins, name, at).value;
            (forall j :: 0 <= j < |plugins| && Applies(name, at, plugins[j]) ==> DocumentedRank(plugins[j]) <= DocumentedRank(w))
            <==> !(ConsumerOnly(w) && exists j :: 0 <= j < |plugins| && Applies(name, at, plugins[j]) && RouteAndService(plugins[j]))
  {
    var i := EffectiveWins(plugins, name, at);
    var w := plugins[i];
    forall j | 0 <= j < |plugins| && Applies(name, at, plugins[j])
      ensures DocumentedRank(w) < DocumentedRank(plugins[j]) <==> ConsumerOnly(w) && RouteAndService(plugins[j])
    {
      if DocumentedRank(w) < DocumentedRank(plugins[j]) {
        FollowsDocumentedOrderExactlyWhen(w, plugins[j]);
      }
    }
  }

  /** A consumer's plugin and one for its route and service: the consumer's is in force although the
      combination is documented to win, in either configured order. */
  lemma ConsumerBeatsCombination(consumers: Plugin, combination: Plugin)
    requires consumers.enabled && combination.enabled && consumers.name == combination.name
    requires ConsumerOnly(consumers) && RouteAndService(combination)
    ensures var at := Scope(combination.route, combination.service, consumers.consumer);
            && Effective([consumers, combination], consumers.name, at) == Some(consumers)
            && Effective([combination, consumers], consumers.name, at) == Some(consumers)
            && DocumentedRank(consumers) < DocumentedRank(combination)
  {
    var at := Scope(combination.route, combination.service, consumers.consumer);
    SpecificityOrders();
    BestIsLastMax(NoMoreSpecific, AppliesTo(consumers.name, at), [consumers, combination], 0);
    BestIsLastMax(NoMoreSpecific, AppliesTo(consumers.name, at), [combination, consumers], 1);
  }

  // ---------------------------------------------------------------- the resolver

  ghost predicate DistinctNames(s: seq<Resolved>) {
    forall i, j :: 0 <= i < j < |s| ==> s[i].plugin.name != s[j].plugin.name
  }

  ghost predicate Descending(s: seq<Resolved>) {
    forall i, j :: 0 <= i < j < |s| ==> s[i].priority >= s[j].priority
  }

  /** A chain: one entry per registered plugin name in force, in descending priority. */
  ghost predicate IsChain(registry: Registry, plugins: seq<Plugin>, at: Scope, chain: seq<Resolved>) {
    && Descending(chain)
    && DistinctNames(chain)
    && (forall x :: x in chain <==> InForce(registry, plugins, at, x))
  }

  predicate InForce(registry: Registry, plugins: seq<Plugin>, at: Scope, x: Resolved) {
    && x.plugin.name in registry && x.priority == registry[x.plugin.name]
    && Effective(plugins, x.plugin.name, at) == Some(x.plugin)
  }

  /** The insertion loop, over candidates already sorted by specificity. */
  method Overwrite(registry: Registry, candidates: seq<Plugin>, at: Scope) returns (resolved: map<string, Resolved>)
    ensures forall n :: n in resolved <==>
              n in registry && LastWhere(Named(n, at), candidates).Some?
    ensures forall n :: n in resolved ==>
              resolved[n] == Resolved(LastWhere(Named(n, at), candidates).value, registry[n])
  {
    resolved := map[];
    for i := 0 to |candidates|
      invariant forall n :: n in resolved <==>
                  n in registry && LastWhere(Named(n, at), candidates[..i]).Some?
      invariant forall n :: n in resolved ==>
                  resolved[n] == Resolved(LastWhere(Named(n, at), candidates[..i]).value, registry[n])
    {
      var plugin := candidates[i];
      assert candidates[..i + 1][..i] == candidates[..i];
      if !PluginMatches(plugin, at) {
        continue;
      }
      if plugin.name !in registry {
        continue;
      }
      resolved := resolved[plugin.name := Resolved(plugin, registry[plugin.name])];
    }
    assert candidates[..|candidates|] == candidates;
  }

  /** HashMap::into_values: every value once, in no particular order. */
  method Values(m: map<string, Resolved>) returns (s: seq<Resolved>)
    requires forall n :: n in m ==> m[n].plugin.name == n
    ensures DistinctNames(s)
    ensures forall x :: x in s <==> x.plugin.name in m && m[x.plugin.name] == x
  {
    s := [];
    var left := m.Keys;
    while left != {}
      invariant left <= m.Keys
      invariant DistinctNames(s)
      invariant forall x :: x in s <==> x.plugin.name in m && x.plugin.name !in left && m[x.plugin.name] == x
      decreases left
    {
      var n :| n in left;
      assert forall i :: 0 <= i < |s| ==> s[i] in s && s[i].plugin.name != n;
      s := s + [m[n]];
      left := left - {n};
    }
  }

  lemma SortKeepsNames(s: seq<Resolved>)
    requires DistinctNames(s)
    ensures DistinctNames(Sort(HigherFirst, s))
  {
    var t := Sort(HigherFirst, s);
    SortPermutes(HigherFirst, s);
    forall i, j | 0 <= i < j < |t|
      ensures t[i].plugin.name != t[j].plugin.name
    {
      if t[i].plugin.name == t[j].plugin.name {
        assert t[i] in multiset(t) && t[j] in multiset(t);
        assert t[i] in s && t[j] in s;
        var k :| 0 <= k < |s| && s[k] == t[i];
        var l :| 0 <= l < |s| && s[l] == t[j];
        if t[i] == t[j] {
          TwiceInMultiset(t, i, j);
          OnceInMultiset(s, k);
        }
      }
    }
  }

  lemma TwiceInMultiset(t: seq<Resolved>, i: nat, j: nat)
    requires i < j < |t| && t[i] == t[j]
    ensures multiset(t)[t[i]] >= 2
  {
    assert t == t[..i] + [t[i]] + t[i + 1..j] + [t[j]] + t[j + 1..];
  }

  lemma OnceInMultiset(s: seq<Resolved>, k: nat)
    requires k < |s| && DistinctNames(s)
    ensures multiset(s)[s[k]] == 1
  {
    assert s == s[..k] + [s[k]] + s[k + 1..];
    assert s[k] !in s[..k] && s[k] !in s[k + 1..];
  }

  method ResolvePlugins(registry: Registry, plugins: seq<Plugin>, at: Scope) returns (chain: seq<Resolved>)
    ensures IsChain(registry, plugins, at, chain)
  {
    var candidates := Sort(NoMoreSpecific, Filter(IsEnabled, plugins));
    var resolved := Overwrite(registry, candidates, at);
    forall n
      ensures LastWhere(Named(n, at), candidates) == Effective(plugins, n, at)
    {
      OverwriteIsEffective(plugins, n, at);
    }
    var values := Values(resolved);
    chain := Sort(HigherFirst, values);
    SortedValuesAreChain(registry, plugins, at, values);
  }

  lemma SortedValuesAreChain(registry: Registry, plugins: seq<Plugin>, at: Scope, values: seq<Resolved>)
    requires DistinctNames(values) && forall x :: x in values <==> InForce(registry, plugins, at, x)
    ensures IsChain(registry, plugins, at, Sort(HigherFirst, values))
  {
    SpecificityOrders();
    SortSorts(HigherFirst, values);
    SortKeeps(HigherFirst, values);
    SortKeepsNames(values);
  }

  /** Disabled instances are dropped before sorting; the last survivor is the one in force. */
  lemma OverwriteIsEffective(plugins: seq<Plugin>, name: string, at: Scope)
    ensures LastWhere(Named(name, at),
                      Sort(NoMoreSpecific, Filter(IsEnabled, plugins))) == Effective(plugins, name, at)
  {
    SpecificityOrders();
    LastOfSorted(NoMoreSpecific, Named(name, at), Filter(IsEnabled, plugins));
    LastMaxOfFilter(NoMoreSpecific, Named(name, at), IsEnabled, AppliesTo(name, at), plugins);
  }

  lemma ChainCounts(chain: seq<Resolved>, x: Resolved)
    requires DistinctNames(chain)
    ensures multiset(chain)[x] == if x in chain then 1 else 0
  {
    if x in chain {
      var k :| 0 <= k < |chain| && chain[k] == x;
      OnceInMultiset(chain, k);
    }
  }

  function Without(s: seq<Resolved>, k: nat): (r: seq<Resolved>)
    requires k < |s|
    ensures |r| == |s| - 1
    ensures forall i :: 0 <= i < |r| ==> r[i] == if i < k then s[i] else s[i + 1]
  {
    s[..k] + s[k + 1..]
  }

  lemma WithoutCounts(s: seq<Resolved>, k: nat)
    requires k < |s|
    ensures multiset(Without(s, k)) == multiset(s) - multiset{s[k]}
  {
    assert s == s[..k] + [s[k]] + s[k + 1..];
  }

  lemma WithoutSorted(s: seq<Resolved>, k: nat)
    requires k < |s| && Sorted(HigherFirst, s)
    ensures Sorted(HigherFirst, Without(s, k))
  {
  }

  /** From an entry of the lowest priority on, all entries have that priority. */
  lemma LowestFrom(a: seq<Resolved>, b: seq<Resolved>, k: nat, i: nat)
    requires a != [] && Sorted(HigherFirst, a) && Sorted(HigherFirst, b) && multiset(a) == multiset(b)
    requires k <= i < |b| && b[k] == a[|a| - 1]
    ensures b[i].priority == b[k].priority
  {
    assert b[i] in multiset(b);
    assert b[i] in a;
    var j :| 0 <= j < |a| && a[j] == b[i];
    assert j < |a| - 1 ==> HigherFirst(a[j], a[|a| - 1]);
    assert k < i ==> HigherFirst(b[k], b[i]);
  }

  lemma SameAt(a: seq<Resolved>, b: seq<Resolved>, k: nat, i: nat)
    requires Sorted(HigherFirst, a) && Sorted(HigherFirst, b) && multiset(a) == multiset(b)
    requires i < |a| == |b| && k < |b| && b[k] == a[|a| - 1]
    requires i < |a| - 1 ==> a[i].priority == Without(b, k)[i].priority
    ensures a[i].priority == b[i].priority
  {
    if k <= i {
      LowestFrom(a, b, k, i);
      if i < |a| - 1 {
        LowestFrom(a, b, k, i + 1);
      }
    }
  }

  lemma WithoutBoth(a: seq<Resolved>, n: nat, b: seq<Resolved>, k: nat, front: seq<Resolved>, rest: seq<Resolved>)
    requires Sorted(HigherFirst, a) && Sorted(HigherFirst, b) && multiset(a) == multiset(b)
    requires n < |a| && k < |b| && a[n] == b[k] && front == Without(a, n) && rest == Without(b, k)
    ensures Sorted(HigherFirst, front) && Sorted(HigherFirst, rest) && multiset(front) == multiset(rest)
  {
    WithoutCounts(a, n);
    WithoutCounts(b, k);
    WithoutSorted(a, n);
    WithoutSorted(b, k);
  }

  lemma {:induction false} SameOrder(a: seq<Resolved>, b: seq<Resolved>)
    requires Sorted(HigherFirst, a) && Sorted(HigherFirst, b) && multiset(a) == multiset(b)
    ensures |a| == |b| && forall i :: 0 <= i < |a| ==> a[i].priority == b[i].priority
    decreases |a|
  {
    assert |multiset(a)| == |a| && |multiset(b)| == |b|;
    if a != [] {
      var n := |a| - 1;
      assert a[n] in multiset(b);
      var k :| 0 <= k < |b| && b[k] == a[n];
      var front, rest := Without(a, n), Without(b, k);
      WithoutBoth(a, n, b, k, front, rest);
      SameOrder(front, rest);
      forall i | 0 <= i < |a|
        ensures a[i].priority == b[i].priority
      {
        assert i < n ==> front[i] == a[i];
        SameAt(a, b, k, i);
      }
    }
  }

  /** Two chains for the same plugins and scope hold the same entries, and differ at most in
      the order of entries of equal priority. */
  lemma ChainsAgree(registry: Registry, plugins: seq<Plugin>, at: Scope, a: seq<Resolved>, b: seq<Resolved>)
    requires IsChain(registry, plugins, at, a) && IsChain(registry, plugins, at, b)
    ensures multiset(a) == multiset(b)
    ensures |a| == |b| && forall i :: 0 <= i < |a| ==> a[i].priority == b[i].priority
  {
    forall x
      ensures multiset(a)[x] == multiset(b)[x]
    {
      ChainCounts(a, x);
      ChainCounts(b, x);
    }
    SameOrder(a, b);
  }

  // ---------------------------------------------------------------- the proxy's chain cache

  type ChainKey = (Option<Id>, Option<Id>)

  function KeyScope(key: ChainKey): Scope {
    Scope(key.0, key.1, None)
  }

  /** The proxy's plugin list and the chains precomputed from it. */
  class ChainCache {
    const registry: Registry
    var plugins: seq<Plugin>
    var chains: map<ChainKey, seq<Resolved>>

    /** Every cached chain is the current plugin list's. */
    ghost predicate Valid()
      reads this
    {
      forall key :: key in chains ==> IsChain(registry, plugins, KeyScope(key), chains[key])
    }

    constructor (registry: Registry)
      ensures Valid() && this.registry == registry && plugins == [] && chains == map[]
    {
      this.registry := registry;
      plugins := [];
      chains := map[];
    }

    method RebuildPluginChains()
      modifies this`chains
      ensures Valid()
      ensures chains.Keys == CachedKeys(plugins)
    {
      var keys: set<ChainKey> := {(None, None)};
      for i := 0 to |plugins|
        invariant keys == CachedKeys(plugins[..i])
      {
        var plugin := plugins[i];
        assert plugins[..i + 1][..i] == plugins[..i];
        keys := keys + {(plugin.route, plugin.service)};
        if plugin.route.Some? {
          keys := keys + {(plugin.route, None)};
        }
        if plugin.service.Some? {
          keys := keys + {(None, plugin.service)};
        }
      }
      assert plugins[..|plugins|] == plugins;
      var built: map<ChainKey, seq<Resolved>> := map[];
      var left := keys;
      while left != {}
        invariant left <= keys && built.Keys == keys - left
        invariant forall key :: key in built ==> IsChain(registry, plugins, KeyScope(key), built[key])
        decreases left
      {
        var key :| key in left;
        var chain := ResolvePlugins(registry, plugins, KeyScope(key));
        built := built[key := chain];
        left := left - {key};
      }
      chains := built;
    }

    method UpdatePlugins(replacement: seq<Plugin>)
      modifies this
      ensures Valid() && plugins == replacement
    {
      plugins := replacement;
      RebuildPluginChains();
    }

    /** Replacing the routes only triggers a rebuild; the chains do not depend on them. */
    method UpdateRoutes()
      requires Valid()
      modifies this`chains
      ensures Valid()
    {
      RebuildPluginChains();
    }

    /** Cached or not, the chain handed to a request is the one resolving the current plugin
        list would give. */
    method ChainFor(route: Id, service: Option<Id>) returns (chain: seq<Resolved>)
      requires Valid()
      ensures IsChain(registry, plugins, Scope(Some(route), service, None), chain)
    {
      var key := (Some(route), service);
      if key in chains {
        chain := chains[key];
      } else {
        chain := ResolvePlugins(registry, plugins, Scope(Some(route), service, None));
      }
    }
  }

  function CachedKeys(plugins: seq<Plugin>): set<ChainKey> {
    if plugins == [] then {(None, None)}
    else
      var p := plugins[|plugins| - 1];
      CachedKeys(plugins[..|plugins| - 1]) + {(p.route, p.service)}
      + (if p.route.Some? then {(p.route, None)} else {})
      + (if p.service.Some? then {(None, p.service)} else {})
  }
}
