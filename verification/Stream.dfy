/** The stream (TCP and TLS) router: preprocess, sort by number of criteria and age, take the first
    match. */
module Stream {
  import opened Wrappers
  import opened Sorting
  import opened Bits
  import opened Cidr

  /** The text primitives the router calls. */
  datatype Engine = Engine(lower: string -> string, parseIp: string -> Option<Ip>, parseByte: string -> Option<nat>)

  datatype CidrPort = CidrPort(ip: Option<string>, port: Option<nat>)
  datatype Route = Route(id: nat, protocols: seq<string>, snis: seq<string>, sources: seq<CidrPort>,
                         destinations: seq<CidrPort>, createdAt: int)

  datatype Request = Request(sourceIp: Option<Ip>, sourcePort: Option<nat>, destIp: Option<Ip>, destPort: Option<nat>,
                             sni: Option<string>)

  datatype Matcher = Matcher(network: Option<(Ip, nat)>, port: Option<nat>)
  datatype Processed = Processed(route: Route, rules: nat, weight: nat, snis: seq<string>,
                                 sources: seq<Matcher>, destinations: seq<Matcher>)

  const MATCH_SNI := 0x08
  const MATCH_SOURCE := 0x04
  const MATCH_DEST := 0x02

  function Find(s: string, c: char): (r: Option<nat>)
    ensures r.Some? ==> r.value < |s| && s[r.value] == c && forall i :: 0 <= i < r.value ==> s[i] != c
    ensures r.None? ==> c !in s
  {
    if s == [] then None
    else if s[0] == c then Some(0)
    else var r := Find(s[1..], c); if r.Some? then Some(r.value + 1) else None
  }

  function ParseCidr(e: Engine, cidr: string): Option<(Ip, nat)> {
    var slash := Find(cidr, '/');
    if slash.Some? then
      var ip, prefixLen := e.parseIp(cidr[..slash.value]), e.parseByte(cidr[slash.value + 1..]);
      if ip.Some? && prefixLen.Some? then Some((ip.value, prefixLen.value)) else None
    else
      var ip := e.parseIp(cidr);
      if ip.Some? then Some((ip.value, Width(ip.value))) else None
  }

  /** The text names a block: an address, a slash and a length, or an address alone, which is the block
      of that address only. */
  ghost predicate NamesBlock(e: Engine, text: string, network: Ip, prefixLen: nat) {
    || (exists a, b :: IsSlashed(text, a, b) && e.parseIp(a) == Some(network) && e.parseByte(b) == Some(prefixLen))
    || ('/' !in text && e.parseIp(text) == Some(network) && prefixLen == if network.V4? then 32 else 128)
  }

  predicate IsSlashed(text: string, a: string, b: string) {
    '/' !in a && text == a + "/" + b
  }

  lemma SlashedIs(text: string, a: string, b: string)
    requires IsSlashed(text, a, b)
    ensures Find(text, '/') == Some(|a|) && text[..|a|] == a && text[|a| + 1..] == b
  {
    assert text[|a|] == '/';
    assert forall i :: 0 <= i < |a| ==> text[i] == a[i];
  }

  /** An address rule is read as exactly the block its text names. */
  lemma ParsesBlock(e: Engine, text: string, network: Ip, prefixLen: nat)
    ensures ParseCidr(e, text) == Some((network, prefixLen)) <==> NamesBlock(e, text, network, prefixLen)
  {
    var slash := Find(text, '/');
    if slash.Some? {
      var a, b := text[..slash.value], text[slash.value + 1..];
      assert text == a + "/" + b;
      assert IsSlashed(text, a, b);
      forall c, d | IsSlashed(text, c, d)
        ensures c == a && d == b
      {
        SlashedIs(text, c, d);
      }
    } else {
      forall c, d
        ensures !IsSlashed(text, c, d)
      {
        if IsSlashed(text, c, d) {
          SlashedIs(text, c, d);
        }
      }
    }
  }

  function MatcherOf(e: Engine, c: CidrPort): Matcher {
    Matcher(if c.ip.Some? then ParseCidr(e, c.ip.value) else None, c.port)
  }

  predicate MatcherMatches(m: Matcher, ip: Option<Ip>, port: Option<nat>) {
    && (m.network.Some? ==> ip.Some? && IpInCidr(ip.value, m.network.value.0, m.network.value.1))
    && (m.port.Some? ==> port == m.port)
  }

  function MatcherBy(e: Engine): CidrPort -> Matcher {
    (c: CidrPort) => MatcherOf(e, c)
  }

  function Weight(r: Route): nat {
    If(r.snis != [], 1) + If(r.sources != [], 1) + If(r.destinations != [], 1)
  }

  function Process(e: Engine, r: Route): Processed {
    Processed(r, If(r.snis != [], MATCH_SNI) + If(r.sources != [], MATCH_SOURCE) + If(r.destinations != [], MATCH_DEST),
              Weight(r), Map(e.lower, r.snis), Map(MatcherBy(e), r.sources), Map(MatcherBy(e), r.destinations))
  }

  /** A pattern names the host, or all hosts one label below a domain. */
  predicate SniFits(pattern: string, sni: string) {
    || pattern == sni
    || ("*." <= pattern && var dot := Find(sni, '.'); dot.Some? && sni[dot.value + 1..] == pattern[2..])
  }

  /** The star stands for exactly one label. */
  lemma StarIsOneLabel(pattern: string, sni: string)
    ensures SniFits(pattern, sni) <==>
            pattern == sni || exists first, domain :: IsBelow(sni, first, domain) && pattern == "*." + domain
  {
    var dot := Find(sni, '.');
    if dot.Some? {
      var first, domain := sni[..dot.value], sni[dot.value + 1..];
      assert sni == first + "." + domain;
      assert IsBelow(sni, first, domain);
      assert "*." <= pattern ==> pattern == "*." + pattern[2..];
    }
    forall first, domain | IsBelow(sni, first, domain)
      ensures dot == Some(|first|) && sni[|first| + 1..] == domain
    {
      assert sni[|first|] == '.';
      assert forall i :: 0 <= i < |first| ==> sni[i] == first[i];
    }
  }

  predicate IsBelow(sni: string, first: string, domain: string) {
    '.' !in first && sni == first + "." + domain
  }

  method MatchSni(e: Engine, patterns: seq<string>, sni: string) returns (r: bool)
    ensures r <==> exists i :: 0 <= i < |patterns| && SniFits(patterns[i], e.lower(sni))
  {
    var lower := e.lower(sni);
    for i := 0 to |patterns|
      invariant forall j :: 0 <= j < i ==> !SniFits(patterns[j], lower)
    {
      if patterns[i] == lower {
        return true;
      }
      if "*." <= patterns[i] {
        var dot := Find(lower, '.');
        if dot.Some? && lower[dot.value + 1..] == patterns[i][2..] {
          return true;
        }
      }
    }
    return false;
  }

  ghost predicate AnyMatches(ms: seq<Matcher>, ip: Option<Ip>, port: Option<nat>) {
    exists i :: 0 <= i < |ms| && MatcherMatches(ms[i], ip, port)
  }

  method MatchAny(ms: seq<Matcher>, ip: Option<Ip>, port: Option<nat>) returns (r: bool)
    ensures r <==> AnyMatches(ms, ip, port)
  {
    for i := 0 to |ms|
      invariant forall j :: 0 <= j < i ==> !MatcherMatches(ms[j], ip, port)
    {
      if MatcherMatches(ms[i], ip, port) {
        return true;
      }
    }
    return false;
  }

  // ---------------------------------------------------------------- what a match means

  /** A rule fits if its address, when it can be read, covers the peer's and its port is the peer's. */
  ghost predicate RuleFits(e: Engine, c: CidrPort, ip: Option<Ip>, port: Option<nat>) {
    && (c.ip.Some? && ParseCidr(e, c.ip.value).Some? ==>
          var block := ParseCidr(e, c.ip.value).value;
          ip.Some? && IpInCidr(ip.value, block.0, block.1))
    && (c.port.Some? ==> port == c.port)
  }

  ghost predicate AnyRuleFits(e: Engine, cs: seq<CidrPort>, ip: Option<Ip>, port: Option<nat>) {
    exists i :: 0 <= i < |cs| && RuleFits(e, cs[i], ip, port)
  }

  ghost predicate AnySniFits(e: Engine, snis: seq<string>, sni: string) {
    exists i :: 0 <= i < |snis| && SniFits(e.lower(snis[i]), e.lower(sni))
  }

  /** Every criterion the route states is met. */
  ghost predicate Fits(e: Engine, req: Request, r: Route) {
    && (r.snis != [] ==> req.sni.Some? && AnySniFits(e, r.snis, req.sni.value))
    && (r.sources != [] ==> AnyRuleFits(e, r.sources, req.sourceIp, req.sourcePort))
    && (r.destinations != [] ==> AnyRuleFits(e, r.destinations, req.destIp, req.destPort))
  }

  lemma RulesFit(e: Engine, cs: seq<CidrPort>, ip: Option<Ip>, port: Option<nat>)
    ensures AnyMatches(Map(MatcherBy(e), cs), ip, port) <==> AnyRuleFits(e, cs, ip, port)
  {
    var ms := Map(MatcherBy(e), cs);
    forall i | 0 <= i < |cs|
      ensures MatcherMatches(ms[i], ip, port) <==> RuleFits(e, cs[i], ip, port)
    {
    }
  }

  ghost predicate FitsEveryPeer(e: Engine, c: CidrPort) {
    forall ip: Option<Ip>, port: Option<nat> :: RuleFits(e, c, ip, port)
  }

  /** A rule with an address and no port fits every peer, even one without an address, exactly when
      its address cannot be read: an unreadable rule restricts nothing. */
  lemma FitsEveryPeerExactlyWhen(e: Engine, c: CidrPort)
    requires c.ip.Some? && c.port.None?
    ensures FitsEveryPeer(e, c) <==> ParseCidr(e, c.ip.value).None?
  {
    if ParseCidr(e, c.ip.value).Some? {
      assert !RuleFits(e, c, None, None);
    }
  }

  method MatchRoute(e: Engine, req: Request, p: Processed) returns (r: bool)
    requires p == Process(e, p.route)
    ensures r <==> Fits(e, req, p.route)
  {
    RulesFit(e, p.route.sources, req.sourceIp, req.sourcePort);
    RulesFit(e, p.route.destinations, req.destIp, req.destPort);
    assert Has(p.rules, MATCH_SNI) <==> p.route.snis != [];
    assert Has(p.rules, MATCH_SOURCE) <==> p.route.sources != [];
    assert Has(p.rules, MATCH_DEST) <==> p.route.destinations != [];
    if Has(p.rules, MATCH_SNI) {
      if req.sni.None? {
        return false;
      }
      var found := MatchSni(e, p.snis, req.sni.value);
      assert found <==> AnySniFits(e, p.route.snis, req.sni.value);
      if !found {
        return false;
      }
    }
    if Has(p.rules, MATCH_SOURCE) {
      var found := MatchAny(p.sources, req.sourceIp, req.sourcePort);
      if !found {
        return false;
      }
    }
    if Has(p.rules, MATCH_DEST) {
      var found := MatchAny(p.destinations, req.destIp, req.destPort);
      if !found {
        return false;
      }
    }
    return true;
  }

  // ---------------------------------------------------------------- the router

  predicate IsStream(protocol: string) {
    protocol in ["tcp", "tls", "tls_passthrough"]
  }

  predicate IsStreamRoute(r: Route) {
    exists i :: 0 <= i < |r.protocols| && IsStream(r.protocols[i])
  }

  /** How many kinds of criteria the route states: SNIs, sources, destinations. */
  function CriteriaGiven(r: Route): nat {
    OneIf(|r.snis| > 0) + OneIf(|r.sources| > 0) + OneIf(|r.destinations| > 0)
  }

  /** More criteria first, then the older route. */
  predicate ComesNoLater(a: Route, b: Route) {
    CriteriaGiven(a) > CriteriaGiven(b) || (CriteriaGiven(a) == CriteriaGiven(b) && a.createdAt <= b.createdAt)
  }

  /** The route serves one of the three stream protocols. */
  predicate TakesStream(r: Route) {
    "tcp" in r.protocols || "tls" in r.protocols || "tls_passthrough" in r.protocols
  }

  lemma TakesStreamIs(r: Route)
    ensures TakesStream(r) <==> IsStreamRoute(r)
  {
    assert IsStreamRoute(r) <==> exists p :: p in r.protocols && IsStream(p) by {
      if p :| p in r.protocols && IsStream(p) {
        var i :| 0 <= i < |r.protocols| && r.protocols[i] == p;
      }
    }
  }

  predicate ProcessedPrecedes(a: Processed, b: Processed) {
    if a.weight != b.weight then a.weight > b.weight else a.route.createdAt <= b.route.createdAt
  }

  lemma PrecedesOrders()
    ensures TotalPreorder(ProcessedPrecedes)
  {
  }

  function StreamRoutes(e: Engine, routes: seq<Route>): seq<Processed> {
    if routes == [] then []
    else
      var front, r := StreamRoutes(e, routes[..|routes| - 1]), routes[|routes| - 1];
      if IsStreamRoute(r) then front + [Process(e, r)] else front
  }

  /** What the sorted list says about the configured one: position k was configured at from[k]. */
  ghost predicate Origins(e: Engine, configured: seq<Route>, processed: seq<Processed>, from: seq<nat>) {
    && |from| == |processed|
    && (forall k :: 0 <= k < |processed| ==>
          && from[k] < |configured| && IsStreamRoute(configured[from[k]])
          && processed[k] == Process(e, configured[from[k]]))
    && (forall k, l :: 0 <= k < l < |from| ==> from[k] < from[l])
    && (forall j :: 0 <= j < |configured| && IsStreamRoute(configured[j]) ==> j in from)
  }

  lemma {:induction false} StreamRoutesOrigins(e: Engine, configured: seq<Route>) returns (from: seq<nat>)
    ensures Origins(e, configured, StreamRoutes(e, configured), from)
  {
    from := [];
    if configured != [] {
      var front, n := configured[..|configured| - 1], |configured| - 1;
      from := StreamRoutesOrigins(e, front);
      OriginsOneMore(e, configured, front, StreamRoutes(e, front), from);
      if IsStreamRoute(configured[n]) {
        from := from + [n];
      }
    }
  }

  lemma OriginsOneMore(e: Engine, configured: seq<Route>, front: seq<Route>, processed: seq<Processed>, from: seq<nat>)
    requires configured != [] && front == configured[..|configured| - 1] && Origins(e, front, processed, from)
    ensures var x := configured[|front|];
            if IsStreamRoute(x) then Origins(e, configured, processed + [Process(e, x)], from + [|front|])
            else Origins(e, configured, processed, from)
  {
    var n, x := |front|, configured[|front|];
    assert forall j :: 0 <= j < n ==> front[j] == configured[j];
    if IsStreamRoute(x) {
      OriginsAppend(e, configured, front, processed, from, Process(e, x), processed + [Process(e, x)], from + [n]);
    }
  }

  lemma OriginsAppend(e: Engine, configured: seq<Route>, front: seq<Route>, processed: seq<Processed>, from: seq<nat>,
                      p: Processed, more: seq<Processed>, later: seq<nat>)
    requires |configured| == |front| + 1 && Origins(e, front, processed, from)
    requires forall j :: 0 <= j < |front| ==> front[j] == configured[j]
    requires IsStreamRoute(configured[|front|]) && p == Process(e, configured[|front|])
    requires more == processed + [p] && later == from + [|front|]
    ensures Origins(e, configured, more, later)
  {
    forall j | 0 <= j < |configured| && IsStreamRoute(configured[j])
      ensures j in later
    {
      if j < |front| {
        assert j in from;
      }
    }
  }

  ghost predicate BestRoute(e: Engine, req: Request, configured: seq<Route>, i: nat) {
    && i < |configured| && TakesStream(configured[i]) && Fits(e, req, configured[i])
    && forall j :: 0 <= j < |configured| && TakesStream(configured[j]) && Fits(e, req, configured[j]) ==>
         ComesNoLater(configured[i], configured[j]) && (j < i ==> !ComesNoLater(configured[j], configured[i]))
  }

  /** None exactly when no stream route fits; otherwise the earliest configured best one. */
  ghost predicate Routed(e: Engine, req: Request, configured: seq<Route>, r: Option<Route>) {
    && (r.None? ==> forall i :: 0 <= i < |configured| && TakesStream(configured[i]) ==> !Fits(e, req, configured[i]))
    && (r.Some? ==> exists i: nat :: BestRoute(e, req, configured, i) && r.value == configured[i])
  }

  ghost function Fitting(e: Engine, req: Request): Processed -> bool {
    (p: Processed) => Fits(e, req, p.route)
  }

  class StreamRouter {
    const engine: Engine
    ghost var configured: seq<Route>
    var routes: seq<Processed>

    ghost predicate Valid()
      reads this
    {
      routes == Sort(ProcessedPrecedes, StreamRoutes(engine, configured))
    }

    constructor (engine: Engine, configured: seq<Route>)
      ensures Valid() && this.engine == engine && this.configured == configured
    {
      this.engine, this.configured := engine, configured;
      var sorted := Prepare(engine, configured);
      routes := sorted;
    }

    method Rebuild(configured: seq<Route>)
      modifies this
      ensures Valid() && this.configured == configured
    {
      routes := Prepare(engine, configured);
      this.configured := configured;
    }

    /** The fitting route with most criteria, and of those the oldest, whatever the configured order. */
    method FindRoute(req: Request) returns (r: Option<Route>)
      requires Valid()
      ensures Routed(engine, req, configured, r)
    {
      SortedIsProcessed(engine, configured, routes);
      for k := 0 to |routes|
        invariant forall l :: 0 <= l < k ==> !Fits(engine, req, routes[l].route)
      {
        var found := MatchRoute(engine, req, routes[k]);
        if found {
          FirstIsBest(engine, req, configured, routes, k);
          return Some(routes[k].route);
        }
      }
      NoneFits(engine, req, configured, routes);
      return None;
    }
  }

  method Prepare(e: Engine, configured: seq<Route>) returns (sorted: seq<Processed>)
    ensures sorted == Sort(ProcessedPrecedes, StreamRoutes(e, configured))
  {
    var processed: seq<Processed> := [];
    for i := 0 to |configured|
      invariant processed == StreamRoutes(e, configured[..i])
    {
      assert configured[..i + 1][..i] == configured[..i];
      if IsStreamRoute(configured[i]) {
        processed := processed + [Process(e, configured[i])];
      }
    }
    assert configured[..|configured|] == configured;
    sorted := Sort(ProcessedPrecedes, processed);
  }

  lemma SortedIsProcessed(e: Engine, configured: seq<Route>, sorted: seq<Processed>)
    requires sorted == Sort(ProcessedPrecedes, StreamRoutes(e, configured))
    ensures forall k :: 0 <= k < |sorted| ==> sorted[k] == Process(e, sorted[k].route)
  {
    var all := StreamRoutes(e, configured);
    var from := StreamRoutesOrigins(e, configured);
    SortKeeps(ProcessedPrecedes, all);
    forall k | 0 <= k < |sorted|
      ensures sorted[k] == Process(e, sorted[k].route)
    {
      assert sorted[k] in all;
      var l :| 0 <= l < |all| && all[l] == sorted[k];
    }
  }

  lemma NoneFits(e: Engine, req: Request, configured: seq<Route>, sorted: seq<Processed>)
    requires sorted == Sort(ProcessedPrecedes, StreamRoutes(e, configured))
    requires forall l :: 0 <= l < |sorted| ==> !Fits(e, req, sorted[l].route)
    ensures Routed(e, req, configured, None)
  {
    var all := StreamRoutes(e, configured);
    var from := StreamRoutesOrigins(e, configured);
    SortKeeps(ProcessedPrecedes, all);
    forall i | 0 <= i < |configured| && TakesStream(configured[i])
      ensures !Fits(e, req, configured[i])
    {
      TakesStreamIs(configured[i]);
      var k :| 0 <= k < |from| && from[k] == i;
      assert all[k] in sorted;
      var l :| 0 <= l < |sorted| && sorted[l] == all[k];
    }
  }

  lemma FirstIsBest(e: Engine, req: Request, configured: seq<Route>, sorted: seq<Processed>, k: nat)
    requires sorted == Sort(ProcessedPrecedes, StreamRoutes(e, configured)) && k < |sorted|
    requires Fits(e, req, sorted[k].route) && forall l :: 0 <= l < k ==> !Fits(e, req, sorted[l].route)
    ensures Routed(e, req, configured, Some(sorted[k].route))
  {
    var all, p := StreamRoutes(e, configured), Fitting(e, req);
    PrecedesOrders();
    var b := FirstHitIsBest(ProcessedPrecedes, p, all, sorted, k);
    var from := StreamRoutesOrigins(e, configured);
    BestByOrigin(e, req, configured, all, from, b);
    assert configured[from[b]] == sorted[k].route;
  }

  lemma BestByOrigin(e: Engine, req: Request, configured: seq<Route>, all: seq<Processed>, from: seq<nat>, b: nat)
    requires Origins(e, configured, all, from) && FirstBest(ProcessedPrecedes, Fitting(e, req), all, b)
    ensures BestRoute(e, req, configured, from[b])
  {
    var i := from[b];
    TakesStreamIs(configured[i]);
    forall j | 0 <= j < |configured| && TakesStream(configured[j]) && Fits(e, req, configured[j])
      ensures ComesNoLater(configured[i], configured[j]) && (j < i ==> !ComesNoLater(configured[j], configured[i]))
    {
      TakesStreamIs(configured[j]);
      assert j in from;
      var k :| 0 <= k < |from| && from[k] == j;
      assert all[k].route == configured[j] && Fitting(e, req)(all[k]);
      if j < i {
        assert k < b;
      }
    }
  }

  // ---------------------------------------------------------------- documented preferences

  /** Number of criteria, then age, then configured position. */
  ghost predicate ComesFirst(configured: seq<Route>, i: nat, j: nat)
    requires i < |configured| && j < |configured|
  {
    var a, b := configured[i], configured[j];
    || CriteriaGiven(a) > CriteriaGiven(b)
    || (CriteriaGiven(a) == CriteriaGiven(b) && a.createdAt < b.createdAt)
    || (CriteriaGiven(a) == CriteriaGiven(b) && a.createdAt == b.createdAt && i <= j)
  }

  /** The stream route at i fits and is of the wanted kind, and comes before every fitting one that is not. */
  ghost predicate Leads(e: Engine, req: Request, configured: seq<Route>, wanted: Route -> bool, i: nat) {
    && i < |configured| && TakesStream(configured[i]) && Fits(e, req, configured[i]) && wanted(configured[i])
    && forall j :: 0 <= j < |configured| && TakesStream(configured[j]) && Fits(e, req, configured[j]) && !wanted(configured[j]) ==>
         ComesFirst(configured, i, j)
  }

  lemma BestComesFirst(e: Engine, req: Request, configured: seq<Route>, b: nat, j: nat)
    requires BestRoute(e, req, configured, b) && j < |configured| && TakesStream(configured[j]) && Fits(e, req, configured[j])
    ensures ComesFirst(configured, b, j)
  {
    assert ComesNoLater(configured[b], configured[j]) && (j < b ==> !ComesNoLater(configured[j], configured[b]));
  }

  /** The order of routes looks at the number of criteria, age and configured position only. So the
      route taken is of a wanted kind exactly when some fitting route of that kind comes, by these,
      before every fitting route that is not. */
  lemma PickedExactlyWhen(e: Engine, req: Request, configured: seq<Route>, wanted: Route -> bool, r: Option<Route>)
    requires Routed(e, req, configured, r)
    ensures r.Some? && wanted(r.value) <==> exists i: nat :: Leads(e, req, configured, wanted, i)
  {
    if r.Some? {
      var b: nat :| BestRoute(e, req, configured, b) && r.value == configured[b];
      if wanted(configured[b]) {
        forall j | 0 <= j < |configured| && TakesStream(configured[j]) && Fits(e, req, configured[j]) && !wanted(configured[j])
          ensures ComesFirst(configured, b, j)
        {
          BestComesFirst(e, req, configured, b, j);
        }
        assert Leads(e, req, configured, wanted, b);
      } else {
        forall i: nat
          ensures !Leads(e, req, configured, wanted, i)
        {
          if i < |configured| && TakesStream(configured[i]) && Fits(e, req, configured[i]) {
            BestComesFirst(e, req, configured, b, i);
          }
        }
      }
    }
  }

  /** The route names the requested host itself. */
  ghost predicate NamesHost(e: Engine, req: Request, r: Route) {
    req.sni.Some? && exists i :: 0 <= i < |r.snis| && e.lower(r.snis[i]) == e.lower(req.sni.value)
  }

  ghost function ByName(e: Engine, req: Request): Route -> bool {
    (r: Route) => NamesHost(e, req, r)
  }

  /** Exact names are documented to win over wildcards: the route taken names the host itself exactly
      when some fitting route that does comes before every fitting one that does not. */
  lemma PickedByNameExactlyWhen(e: Engine, req: Request, configured: seq<Route>, r: Option<Route>)
    requires Routed(e, req, configured, r)
    ensures r.Some? && NamesHost(e, req, r.value) <==> exists i: nat :: Leads(e, req, configured, ByName(e, req), i)
  {
    PickedExactlyWhen(e, req, configured, ByName(e, req), r);
  }

  /** The documented order of criteria: SNI before source before destination. */
  function Rank(r: Route): nat {
    if r.snis != [] then 3 else if r.sources != [] then 2 else if r.destinations != [] then 1 else 0
  }

  function Ranked(rank: nat): Route -> bool {
    (r: Route) => Rank(r) >= rank
  }

  /** The highest rank among the fitting stream routes. */
  ghost predicate TopRank(e: Engine, req: Request, configured: seq<Route>, rank: nat) {
    forall j :: 0 <= j < |configured| && TakesStream(configured[j]) && Fits(e, req, configured[j]) ==> Rank(configured[j]) <= rank
  }

  /** The documented order decides exactly when some fitting route of the highest rank comes before
      every fitting one of a lower rank. */
  lemma PickedByRankExactlyWhen(e: Engine, req: Request, configured: seq<Route>, rank: nat, r: Option<Route>)
    requires Routed(e, req, configured, r) && TopRank(e, req, configured, rank)
    ensures r.Some? && Rank(r.value) == rank <==> exists i: nat :: Leads(e, req, configured, Ranked(rank), i)
  {
    PickedExactlyWhen(e, req, configured, Ranked(rank), r);
    if r.Some? {
      var b: nat :| BestRoute(e, req, configured, b) && r.value == configured[b];
      assert Rank(configured[b]) <= rank;
    }
  }

  /** A destination rule created at 1 and a source rule created at 2, both for the request's ports: in
      either configured order the destination route is taken. */
  lemma DestinationBeatsSource(e: Engine, id1: nat, id2: nat, r: Option<Route>, s: Option<Route>)
    requires var destination := Route(id1, ["tcp"], [], [], [CidrPort(None, Some(80))], 1);
             var source := Route(id2, ["tcp"], [], [CidrPort(None, Some(7))], [], 2);
             var req := Request(None, Some(7), None, Some(80), None);
             Routed(e, req, [destination, source], r) && Routed(e, req, [source, destination], s)
    ensures var destination := Route(id1, ["tcp"], [], [], [CidrPort(None, Some(80))], 1);
            r == Some(destination) && s == Some(destination) && Rank(destination) == 1
  {
    var destination := Route(id1, ["tcp"], [], [], [CidrPort(None, Some(80))], 1);
    var source := Route(id2, ["tcp"], [], [CidrPort(None, Some(7))], [], 2);
    var req := Request(None, Some(7), None, Some(80), None);
    assert destination.protocols[0] == "tcp" && source.protocols[0] == "tcp";
    assert RuleFits(e, destination.destinations[0], None, Some(80)) && RuleFits(e, source.sources[0], None, Some(7));
    OlderOfTwo(e, req, [destination, source], 0, 1, r);
    OlderOfTwo(e, req, [source, destination], 1, 0, s);
  }

  /** A wildcard created at 1 and the exact name created at 2: in either configured order, every answer
      to a request for that name is the wildcard route. */
  lemma WildcardBeatsExact(e: Engine, id1: nat, id2: nat, r: Option<Route>, s: Option<Route>)
    requires e.lower("a.b") == "a.b" && e.lower("*.b") == "*.b"
    requires var wildcard := Route(id1, ["tls"], ["*.b"], [], [], 1);
             var exact := Route(id2, ["tls"], ["a.b"], [], [], 2);
             var req := Request(None, None, None, None, Some("a.b"));
             Routed(e, req, [wildcard, exact], r) && Routed(e, req, [exact, wildcard], s)
    ensures var wildcard := Route(id1, ["tls"], ["*.b"], [], [], 1);
            r == Some(wildcard) && s == Some(wildcard)
  {
    var wildcard, exact := Route(id1, ["tls"], ["*.b"], [], [], 1), Route(id2, ["tls"], ["a.b"], [], [], 2);
    var req := Request(None, None, None, None, Some("a.b"));
    ExactFits(e, exact, req);
    WildcardFits(e, wildcard, req);
    OlderOfTwo(e, req, [wildcard, exact], 0, 1, r);
    OlderOfTwo(e, req, [exact, wildcard], 1, 0, s);
  }

  lemma ExactFits(e: Engine, r: Route, req: Request)
    requires e.lower("a.b") == "a.b" && r.snis == ["a.b"] && r.protocols == ["tls"] && r.sources == r.destinations == []
    requires req.sni == Some("a.b")
    ensures Fits(e, req, r) && TakesStream(r)
  {
    assert SniFits(e.lower(r.snis[0]), e.lower("a.b"));
    assert r.protocols[0] == "tls";
  }

  lemma WildcardFits(e: Engine, r: Route, req: Request)
    requires e.lower("a.b") == "a.b" && e.lower("*.b") == "*.b"
    requires r.snis == ["*.b"] && r.protocols == ["tls"] && r.sources == r.destinations == []
    requires req.sni == Some("a.b")
    ensures Fits(e, req, r) && TakesStream(r)
  {
    assert "a.b"[1..][0] == '.' && Find("a.b"[1..], '.') == Some(0) && Find("a.b", '.') == Some(1);
    assert "a.b"[2..] == "b" && "*.b"[2..] == "b";
    assert SniFits(e.lower(r.snis[0]), e.lower("a.b"));
    assert r.protocols[0] == "tls";
  }

  lemma OlderOfTwo(e: Engine, req: Request, configured: seq<Route>, i: nat, j: nat, r: Option<Route>)
    requires |configured| == 2 && i < 2 && j < 2 && i != j && Routed(e, req, configured, r)
    requires TakesStream(configured[i]) && Fits(e, req, configured[i])
    requires CriteriaGiven(configured[i]) == CriteriaGiven(configured[j]) && configured[i].createdAt < configured[j].createdAt
    ensures r == Some(configured[i])
  {
    var b: nat :| BestRoute(e, req, configured, b) && r.value == configured[b];
    OlderIsBest(e, req, configured, i, b);
  }

  lemma OlderIsBest(e: Engine, req: Request, configured: seq<Route>, i: nat, b: nat)
    requires BestRoute(e, req, configured, b) && i < |configured| && TakesStream(configured[i]) && Fits(e, req, configured[i])
    ensures ComesNoLater(configured[b], configured[i])
  {
  }
}
