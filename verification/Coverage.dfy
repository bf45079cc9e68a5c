/** The admin's policy coverage index over AI endpoints. It resolves plugins by its own scope
    table and says it does so like the runtime resolver; AgreesWithResolver is that statement,
    for every topology of routes, services, plugins and workspaces. */
module Coverage {
  import opened Wrappers
  import opened Sorting
  import opened Plugins

  datatype Route = Route(id: Id, service: Option<Id>, workspace: Option<Id>)

  datatype Service = Service(id: Id, workspace: Option<Id>, enabled: bool)

  /** One snapshot of the configuration, with the default workspace. */
  datatype Topology = Topology(routes: seq<Route>, services: seq<Service>, home: Id)

  datatype Kind = KeyAuth | RateLimit | Proxy

  function KindOf(name: string): Option<Kind> {
    if name == "ai-key-auth" then Some(KeyAuth)
    else if name == "ai-rate-limit" then Some(RateLimit)
    else if name == "ai-proxy" then Some(Proxy)
    else None
  }

  function NameOf(kind: Kind): (name: string)
    ensures KindOf(name) == Some(kind)
  {
    match kind
    case KeyAuth => "ai-key-auth"
    case RateLimit => "ai-rate-limit"
    case Proxy => "ai-proxy"
  }

  datatype Key = Key(workspace: Id, route: Option<Id>, service: Option<Id>, kind: Kind)

  function Workspace(t: Topology, ws: Option<Id>): Id {
    if ws.Some? then ws.value else t.home
  }

  predicate HasRouteId(id: Id, r: Route) {
    r.id == id
  }

  predicate HasServiceId(id: Id, s: Service) {
    s.id == id
  }

  /** The by-id maps: of several entries with one id the last is kept. */
  function RouteById(t: Topology, id: Id): (r: Option<Route>)
    ensures r.Some? ==> r.value in t.routes && r.value.id == id
  {
    LastWhere(r => HasRouteId(id, r), t.routes)
  }

  function ServiceById(t: Topology, id: Id): (s: Option<Service>)
    ensures s.Some? ==> s.value in t.services && s.value.id == id
  {
    LastWhere(s => HasServiceId(id, s), t.services)
  }

  function RouteIdsOf(t: Topology, service: Id): set<Id> {
    set i | 0 <= i < |t.routes| && t.routes[i].service == Some(service) :: t.routes[i].id
  }

  // ---------------------------------------------------------------- one plugin at a time

  /** What the loop does with a plugin: nothing, mark routes invalid, or file it under a key. */
  datatype Placement = Skip | Invalidate(routes: set<Id>) | File(key: Key)

  function Place(t: Topology, p: Plugin): Placement {
    if !p.enabled || KindOf(p.name).None? || p.consumer.Some? then Skip
    else
      var ws := Workspace(t, p.workspace);
      if p.route.Some? && RouteById(t, p.route.value).None? then Skip
      else if p.route.Some? && Workspace(t, RouteById(t, p.route.value).value.workspace) != ws then
        Invalidate({p.route.value})
      else if p.service.Some? && ServiceById(t, p.service.value).None? then
        if p.route.Some? then Invalidate({p.route.value}) else Skip
      else if p.service.Some? && Workspace(t, ServiceById(t, p.service.value).value.workspace) != ws then
        if p.route.Some? then Invalidate({p.route.value}) else Invalidate(RouteIdsOf(t, p.service.value))
      else if p.route.Some? && p.service.Some? && RouteById(t, p.route.value).value.service != p.service then
        Invalidate({p.route.value})
      else File(Key(ws, p.route, p.service, KindOf(p.name).value))
  }

  function InvalidRoutes(t: Topology, plugins: seq<Plugin>): set<Id> {
    if plugins == [] then {}
    else
      var rest := InvalidRoutes(t, plugins[..|plugins| - 1]);
      var at := Place(t, plugins[|plugins| - 1]);
      if at.Invalidate? then rest + at.routes else rest
  }

  /** The scope table: a later plugin replaces an earlier one under the same key. */
  function Filed(t: Topology, plugins: seq<Plugin>): map<Key, Plugin> {
    if plugins == [] then map[]
    else
      var p := plugins[|plugins| - 1];
      var rest := Filed(t, plugins[..|plugins| - 1]);
      if Place(t, p).File? then rest[Place(t, p).key := p] else rest
  }

  method PlaceAll(t: Topology, plugins: seq<Plugin>) returns (invalid: set<Id>, filed: map<Key, Plugin>)
    ensures invalid == InvalidRoutes(t, plugins) && filed == Filed(t, plugins)
  {
    invalid, filed := {}, map[];
    for i := 0 to |plugins|
      invariant invalid == InvalidRoutes(t, plugins[..i]) && filed == Filed(t, plugins[..i])
    {
      assert plugins[..i + 1][..i] == plugins[..i];
      match Place(t, plugins[i])
      case Skip =>
      case Invalidate(routes) => invalid := invalid + routes;
      case File(key) => filed := filed[key := plugins[i]];
    }
    assert plugins[..|plugins|] == plugins;
  }

  function Lookup(filed: map<Key, Plugin>, key: Key): Option<Plugin> {
    if key in filed then Some(filed[key]) else None
  }

  function Over(specific: Option<Plugin>, general: Option<Plugin>): Option<Plugin> {
    if specific.Some? then specific else general
  }

  /** effective_plugin: global, then service, then route, then both, each overriding. */
  method EffectivePlugin(filed: map<Key, Plugin>, ws: Id, route: Id, service: Option<Id>, kind: Kind) returns (r: Option<Plugin>)
    ensures r == FiledEffective(filed, ws, route, service, kind)
  {
    r := Lookup(filed, Key(ws, None, None, kind));
    if service.Some? {
      var p := Lookup(filed, Key(ws, None, service, kind));
      if p.Some? {
        r := p;
      }
    }
    var p := Lookup(filed, Key(ws, Some(route), None, kind));
    if p.Some? {
      r := p;
    }
    if service.Some? {
      p := Lookup(filed, Key(ws, Some(route), service, kind));
      if p.Some? {
        r := p;
      }
    }
  }

  function FiledEffective(filed: map<Key, Plugin>, ws: Id, route: Id, service: Option<Id>, kind: Kind): Option<Plugin> {
    var own := Over(if service.Some? then Lookup(filed, Key(ws, Some(route), service, kind)) else None,
                    Lookup(filed, Key(ws, Some(route), None, kind)));
    Over(own, Over(if service.Some? then Lookup(filed, Key(ws, None, service, kind)) else None,
                   Lookup(filed, Key(ws, None, None, kind))))
  }

  // ---------------------------------------------------------------- agreement with the resolver

  ghost predicate UniqueIds(t: Topology) {
    && (forall i, j :: 0 <= i < j < |t.routes| ==> t.routes[i].id != t.routes[j].id)
    && (forall i, j :: 0 <= i < j < |t.services| ==> t.services[i].id != t.services[j].id)
  }

  /** The route is an endpoint: its service, if it names one, exists in its workspace. */
  predicate Endpoint(t: Topology, r: Route) {
    r.service.Some? ==>
      && ServiceById(t, r.service.value).Some?
      && Workspace(t, ServiceById(t, r.service.value).value.workspace) == Workspace(t, r.workspace)
  }

  function EndpointScope(r: Route): Scope {
    Scope(Some(r.id), r.service, None)
  }

  /** The plugins of one workspace that apply to the route before a consumer is known. */
  predicate AppliesIn(t: Topology, r: Route, kind: Kind, p: Plugin) {
    Applies(NameOf(kind), EndpointScope(r), p) && Workspace(t, p.workspace) == Workspace(t, r.workspace)
  }

  function AppliesInTo(t: Topology, r: Route, kind: Kind): Plugin -> bool {
    (p: Plugin) => AppliesIn(t, r, kind, p)
  }

  predicate RouteKey(t: Topology, r: Route, kind: Kind, key: Key) {
    && key.workspace == Workspace(t, r.workspace) && key.kind == kind
    && (key.route == None || key.route == Some(r.id))
    && (key.service == None || key.service == r.service)
  }

  lemma FindsRoute(t: Topology, r: Route)
    requires UniqueIds(t) && r in t.routes
    ensures RouteById(t, r.id) == Some(r)
  {
    var found := RouteById(t, r.id);
    var i :| 0 <= i < |t.routes| && t.routes[i] == r;
    assert HasRouteId(r.id, t.routes[i]);
    if found.Some? {
      var j :| 0 <= j < |t.routes| && t.routes[j] == found.value;
    }
  }

  lemma KindNames(name: string, kind: Kind)
    ensures KindOf(name) == Some(kind) <==> name == NameOf(kind)
  {
  }

  /** A plugin that leaves the route valid is filed under one of the route's keys exactly when
      it applies to the route in its workspace. */
  lemma FiledExactlyWhenApplies(t: Topology, r: Route, kind: Kind, p: Plugin)
    requires UniqueIds(t) && r in t.routes && Endpoint(t, r)
    requires Place(t, p).Invalidate? ==> r.id !in Place(t, p).routes
    ensures (Place(t, p).File? && RouteKey(t, r, kind, Place(t, p).key)) <==> AppliesIn(t, r, kind, p)
  {
    FindsRoute(t, r);
    KindNames(p.name, kind);
  }

  lemma {:induction false} FiledHolds(t: Topology, plugins: seq<Plugin>, key: Key)
    requires key in Filed(t, plugins)
    ensures Place(t, Filed(t, plugins)[key]) == File(key)
  {
    if plugins != [] {
      var p := plugins[|plugins| - 1];
      if !(Place(t, p).File? && Place(t, p).key == key) {
        FiledHolds(t, plugins[..|plugins| - 1], key);
      }
    }
  }

  function Level(key: Key): nat {
    2 * Bit(key.route.Some?) + Bit(key.service.Some?)
  }

  lemma FiledShape(t: Topology, p: Plugin, key: Key)
    requires Place(t, p) == File(key)
    ensures Specificity(p) == Level(key)
  {
  }

  /** Filing a plugin under one of the route's keys replaces what was in force unless that is
      more specific; filing it elsewhere changes nothing for the route. */
  lemma FilingStep(t: Topology, filed: map<Key, Plugin>, r: Route, kind: Kind, key: Key, p: Plugin)
    requires forall k :: k in filed ==> Specificity(filed[k]) == Level(k)
    requires Specificity(p) == Level(key)
    ensures var ws := Workspace(t, r.workspace);
            var before := FiledEffective(filed, ws, r.id, r.service, kind);
            FiledEffective(filed[key := p], ws, r.id, r.service, kind) ==
            if RouteKey(t, r, kind, key) && (before.None? || NoMoreSpecific(before.value, p)) then Some(p) else before
  {
  }

  /** The scope table and the workspace's plugin list yield the same plugin. */
  lemma {:induction false} TableIsLastMax(t: Topology, plugins: seq<Plugin>, r: Route, kind: Kind)
    requires UniqueIds(t) && r in t.routes && Endpoint(t, r)
    requires r.id !in InvalidRoutes(t, plugins)
    ensures FiledEffective(Filed(t, plugins), Workspace(t, r.workspace), r.id, r.service, kind)
            == LastMax(NoMoreSpecific, AppliesInTo(t, r, kind), plugins)
  {
    if plugins != [] {
      var front, p := plugins[..|plugins| - 1], plugins[|plugins| - 1];
      TableIsLastMax(t, front, r, kind);
      FiledExactlyWhenApplies(t, r, kind, p);
      if Place(t, p).File? {
        forall k | k in Filed(t, front)
          ensures Specificity(Filed(t, front)[k]) == Level(k)
        {
          FiledHolds(t, front, k);
          FiledShape(t, Filed(t, front)[k], k);
        }
        FiledShape(t, p, Place(t, p).key);
        FilingStep(t, Filed(t, front), r, kind, Place(t, p).key, p);
      }
    }
  }

  /** The plugin in force at runtime, where workspaces play no part. */
  function Runtime(plugins: seq<Plugin>, r: Route, kind: Kind): Option<Plugin> {
    Effective(plugins, NameOf(kind), EndpointScope(r))
  }

  predicate InWorkspace(t: Topology, r: Route, p: Plugin) {
    Workspace(t, p.workspace) == Workspace(t, r.workspace)
  }

  function InWorkspaceOf(t: Topology, r: Route): Plugin -> bool {
    (p: Plugin) => InWorkspace(t, r, p)
  }

  /** For every endpoint that is not marked invalid, the index finds exactly the plugin that the
      runtime resolver picks, with no consumer, from the plugins of the route's workspace. */
  lemma AgreesWithResolver(t: Topology, plugins: seq<Plugin>, r: Route, kind: Kind)
    requires UniqueIds(t) && r in t.routes && Endpoint(t, r)
    requires r.id !in InvalidRoutes(t, plugins)
    ensures FiledEffective(Filed(t, plugins), Workspace(t, r.workspace), r.id, r.service, kind)
            == Runtime(Filter(InWorkspaceOf(t, r), plugins), r, kind)
  {
    TableIsLastMax(t, plugins, r, kind);
    FilteredRuntime(t, plugins, r, kind);
  }

  lemma FilteredRuntime(t: Topology, plugins: seq<Plugin>, r: Route, kind: Kind)
    ensures Runtime(Filter(InWorkspaceOf(t, r), plugins), r, kind)
            == LastMax(NoMoreSpecific, AppliesInTo(t, r, kind), plugins)
  {
    LastMaxOfFilter(NoMoreSpecific, AppliesTo(NameOf(kind), EndpointScope(r)), InWorkspaceOf(t, r), AppliesInTo(t, r, kind), plugins);
  }

  /** The one way to disagree: every applicable plugin is global, and the last of them belongs
      to another workspace. */
  ghost predicate ForeignGlobalLast(t: Topology, plugins: seq<Plugin>, r: Route, kind: Kind, i: nat) {
    && i < |plugins| && Applies(NameOf(kind), EndpointScope(r), plugins[i]) && !InWorkspace(t, r, plugins[i])
    && forall j :: 0 <= j < |plugins| && Applies(NameOf(kind), EndpointScope(r), plugins[j]) ==>
         Specificity(plugins[j]) == 0 && j <= i
  }

  lemma {:induction false} InvalidCovers(t: Topology, plugins: seq<Plugin>, i: nat)
    requires i < |plugins| && Place(t, plugins[i]).Invalidate?
    ensures Place(t, plugins[i]).routes <= InvalidRoutes(t, plugins)
  {
    if i < |plugins| - 1 {
      assert plugins[..|plugins| - 1][i] == plugins[i];
      InvalidCovers(t, plugins[..|plugins| - 1], i);
    }
  }

  /** A scoped plugin of another workspace would have made the route invalid. */
  lemma ForeignIsGlobal(t: Topology, plugins: seq<Plugin>, r: Route, kind: Kind, i: nat)
    requires UniqueIds(t) && r in t.routes && Endpoint(t, r) && r.id !in InvalidRoutes(t, plugins)
    requires i < |plugins| && Applies(NameOf(kind), EndpointScope(r), plugins[i]) && !InWorkspace(t, r, plugins[i])
    ensures Specificity(plugins[i]) == 0
  {
    var p := plugins[i];
    FindsRoute(t, r);
    KindNames(p.name, kind);
    if Place(t, p).Invalidate? {
      InvalidCovers(t, plugins, i);
    }
    if p.service.Some? {
      RouteIsAmong(t, r, p.service.value);
    }
  }

  /** Across workspaces the index and the runtime agree exactly unless a foreign global plugin
      is the last word. With a single workspace they always agree. */
  lemma AgreesWithRuntimeExactlyWhen(t: Topology, plugins: seq<Plugin>, r: Route, kind: Kind)
    requires UniqueIds(t) && r in t.routes && Endpoint(t, r)
    requires r.id !in InvalidRoutes(t, plugins)
    ensures FiledEffective(Filed(t, plugins), Workspace(t, r.workspace), r.id, r.service, kind) == Runtime(plugins, r, kind)
            <==> !exists i :: ForeignGlobalLast(t, plugins, r, kind, i)
  {
    TableIsLastMax(t, plugins, r, kind);
    SpecificityOrders();
    var i := EffectiveWins(plugins, NameOf(kind), EndpointScope(r));
    var own := LastMax(NoMoreSpecific, AppliesInTo(t, r, kind), plugins);
    var all := Runtime(plugins, r, kind);
    if all.None? {
    } else if InWorkspace(t, r, plugins[i]) {
      BestIsLastMax(NoMoreSpecific, AppliesInTo(t, r, kind), plugins, i);
      forall j: nat
        ensures !ForeignGlobalLast(t, plugins, r, kind, j)
      {
        if ForeignGlobalLast(t, plugins, r, kind, j) {
          assert false;
        }
      }
    } else {
      ForeignIsGlobal(t, plugins, r, kind, i);
      assert ForeignGlobalLast(t, plugins, r, kind, i);
    }
  }

  lemma PlacesGlobal(t: Topology, p: Plugin)
    requires p.enabled && p.name == "ai-proxy" && Specificity(p) == 0
    ensures Place(t, p) == File(Key(Workspace(t, p.workspace), None, None, Proxy))
  {
    KindNames(p.name, Proxy);
  }

  lemma FilesOneMore(t: Topology, plugins: seq<Plugin>, p: Plugin, more: seq<Plugin>, key: Key)
    requires more == plugins + [p] && Place(t, p) == File(key)
    ensures InvalidRoutes(t, more) == InvalidRoutes(t, plugins) && Filed(t, more) == Filed(t, plugins)[key := p]
  {
    assert more[..|plugins|] == plugins;
  }

  /** Two workspaces, a global plugin in each: the index reports the route's own, the runtime
      runs the foreign one configured after it. */
  lemma ForeignGlobalDisagrees(own: Plugin, foreign: Plugin)
    requires own.enabled && foreign.enabled && own.name == foreign.name == "ai-proxy"
    requires Specificity(own) == 0 && Specificity(foreign) == 0
    requires own.workspace == None && foreign.workspace == Some(1)
    ensures var t, r := Topology([Route(7, None, None)], [], 0), Route(7, None, None);
            && UniqueIds(t) && r in t.routes && Endpoint(t, r) && r.id !in InvalidRoutes(t, [own, foreign])
            && Runtime([own, foreign], r, Proxy) == Some(foreign)
            && FiledEffective(Filed(t, [own, foreign]), 0, r.id, r.service, Proxy) == Some(own)
  {
    var t, r, both := Topology([Route(7, None, None)], [], 0), Route(7, None, None), [own, foreign];
    var mine, theirs := Key(0, None, None, Proxy), Key(1, None, None, Proxy);
    PlacesGlobal(t, own);
    PlacesGlobal(t, foreign);
    FilesOneMore(t, [], own, [own], mine);
    FilesOneMore(t, [own], foreign, both, theirs);
    assert Filed(t, both) == map[mine := own, theirs := foreign];
    SpecificityOrders();
    BestIsLastMax(NoMoreSpecific, AppliesTo("ai-proxy", EndpointScope(r)), both, 1);
  }

  // ---------------------------------------------------------------- the counters

  datatype RateState = Malformed | Other | VirtualKey

  /** The configuration validators, which belong to the plugins. */
  datatype Checks = Checks(validAuth: Plugin -> bool, validProxy: Plugin -> bool, rate: Plugin -> RateState)

  datatype Tally = Tally(auth: nat, enforced: nat, errors: nat)

  const NONE := Tally(0, 0, 0)
  const ERROR := Tally(0, 0, 1)

  function Plus(a: Tally, b: Tally): Tally {
    Tally(a.auth + b.auth, a.enforced + b.enforced, a.errors + b.errors)
  }

  /** What one endpoint contributes, given its three plugins in force. */
  function Assess(c: Checks, auth: Option<Plugin>, proxy: Option<Plugin>, rate: Option<Plugin>): Tally {
    var authValid := auth.Some? && c.validAuth(auth.value);
    var proxyValid := proxy.Some? && c.validProxy(proxy.value);
    var state := if rate.Some? then Some(c.rate(rate.value)) else None;
    var invalidConfig := (auth.Some? && !authValid) || (proxy.Some? && !proxyValid) || state == Some(Malformed);
    var wanted := state == Some(VirtualKey);
    var error := invalidConfig || (wanted && (!authValid || !proxyValid));
    Tally(Bit(authValid), Bit(!error && authValid && proxyValid && wanted), Bit(error))
  }

  /** What one route contributes, given how its plugins are found: a broken service reference
      is an error, a disabled service nothing, a route marked invalid an error. */
  function RouteTally(t: Topology, plugins: seq<Plugin>, c: Checks, inForce: Kind -> Option<Plugin>, r: Route): Tally {
    if !Endpoint(t, r) then ERROR
    else if r.service.Some? && !ServiceById(t, r.service.value).value.enabled then NONE
    else if r.id in InvalidRoutes(t, plugins) then ERROR
    else Assess(c, inForce(KeyAuth), inForce(Proxy), inForce(RateLimit))
  }

  /** By the scope table, as the index computes it. */
  function TableTally(t: Topology, plugins: seq<Plugin>, c: Checks, r: Route): Tally {
    RouteTally(t, plugins, c, kind => FiledEffective(Filed(t, plugins), Workspace(t, r.workspace), r.id, r.service, kind), r)
  }

  /** By the runtime resolver over the workspace's plugins. */
  function ResolverTally(t: Topology, plugins: seq<Plugin>, c: Checks, r: Route): Tally {
    RouteTally(t, plugins, c, kind => Runtime(Filter(InWorkspaceOf(t, r), plugins), r, kind), r)
  }

  function TableTallies(t: Topology, plugins: seq<Plugin>, c: Checks): Route -> Tally {
    r => TableTally(t, plugins, c, r)
  }

  function ResolverTallies(t: Topology, plugins: seq<Plugin>, c: Checks): Route -> Tally {
    r => ResolverTally(t, plugins, c, r)
  }

  function WorkspaceTally(t: Topology, tallyOf: Route -> Tally, ws: Id, routes: seq<Route>): Tally {
    if routes == [] then NONE
    else
      var r := routes[|routes| - 1];
      var rest := WorkspaceTally(t, tallyOf, ws, routes[..|routes| - 1]);
      if Workspace(t, r.workspace) == ws then Plus(rest, tallyOf(r)) else rest
  }

  lemma TallyFollowsResolver(t: Topology, plugins: seq<Plugin>, c: Checks, r: Route)
    requires UniqueIds(t) && r in t.routes
    ensures TableTally(t, plugins, c, r) == ResolverTally(t, plugins, c, r)
  {
    if Endpoint(t, r) && r.id !in InvalidRoutes(t, plugins) {
      AgreesWithResolver(t, plugins, r, KeyAuth);
      AgreesWithResolver(t, plugins, r, Proxy);
      AgreesWithResolver(t, plugins, r, RateLimit);
    }
  }

  // ---------------------------------------------------------------- what is counted, on the configuration

  /** No workspace and the default workspace are the same. */
  predicate Together(t: Topology, a: Option<Id>, b: Option<Id>) {
    a == b || (a == None && b == Some(t.home)) || (a == Some(t.home) && b == None)
  }

  ghost predicate Serves(t: Topology, s: Service, r: Route) {
    s in t.services && r.service == Some(s.id) && Together(t, s.workspace, r.workspace)
  }

  /** The service the route names exists in its workspace. */
  ghost predicate Sound(t: Topology, r: Route) {
    r.service == None || exists s :: Serves(t, s, r)
  }

  ghost predicate Callable(t: Topology, r: Route) {
    r.service == None || exists s :: Serves(t, s, r) && s.enabled
  }

  ghost predicate ServiceBeside(t: Topology, p: Plugin, together: bool) {
    exists s :: s in t.services && p.service == Some(s.id) && Together(t, s.workspace, p.workspace) == together
  }

  /** A policy plugin makes a route invalid when it is for the route but of another workspace, or for
      the route and a service that is not the route's or not in the plugin's workspace; or when it is
      for the route's service alone and that is in another workspace than the plugin. */
  ghost predicate Marks(t: Topology, p: Plugin, r: Route) {
    && p.enabled && p.consumer == None && (p.name == "ai-key-auth" || p.name == "ai-rate-limit" || p.name == "ai-proxy")
    && (|| (p.route == Some(r.id)
            && (|| !Together(t, p.workspace, r.workspace)
                || (p.service.Some? && !(p.service == r.service && ServiceBeside(t, p, true)))))
        || (p.route == None && p.service.Some? && p.service == r.service && ServiceBeside(t, p, false)))
  }

  ghost predicate MarkedInvalid(t: Topology, plugins: seq<Plugin>, r: Route) {
    exists i :: 0 <= i < |plugins| && Marks(t, plugins[i], r)
  }

  function TogetherWith(t: Topology, r: Route): Plugin -> bool {
    (p: Plugin) => Together(t, p.workspace, r.workspace)
  }

  /** The plugin of that name that the runtime resolver picks, before a consumer is known, from the
      plugins of the route's workspace. */
  function InForce(t: Topology, plugins: seq<Plugin>, r: Route, name: string): Option<Plugin> {
    Effective(Filter(TogetherWith(t, r), plugins), name, Scope(Some(r.id), r.service, None))
  }

  predicate AuthPasses(t: Topology, plugins: seq<Plugin>, c: Checks, r: Route) {
    var p := InForce(t, plugins, r, "ai-key-auth");
    p.Some? && c.validAuth(p.value)
  }

  predicate ProxyPasses(t: Topology, plugins: seq<Plugin>, c: Checks, r: Route) {
    var p := InForce(t, plugins, r, "ai-proxy");
    p.Some? && c.validProxy(p.value)
  }

  predicate LimitsAs(t: Topology, plugins: seq<Plugin>, c: Checks, r: Route, state: RateState) {
    var p := InForce(t, plugins, r, "ai-rate-limit");
    p.Some? && c.rate(p.value) == state
  }

  /** A configuration in force is invalid. */
  predicate BadConfig(t: Topology, plugins: seq<Plugin>, c: Checks, r: Route) {
    || (InForce(t, plugins, r, "ai-key-auth").Some? && !AuthPasses(t, plugins, c, r))
    || (InForce(t, plugins, r, "ai-proxy").Some? && !ProxyPasses(t, plugins, c, r))
    || LimitsAs(t, plugins, c, r, Malformed)
  }

  ghost predicate Counted(t: Topology, plugins: seq<Plugin>, r: Route) {
    Sound(t, r) && Callable(t, r) && !MarkedInvalid(t, plugins, r)
  }

  ghost predicate Authenticated(t: Topology, plugins: seq<Plugin>, c: Checks, r: Route) {
    Counted(t, plugins, r) && AuthPasses(t, plugins, c, r)
  }

  ghost predicate Enforced(t: Topology, plugins: seq<Plugin>, c: Checks, r: Route) {
    && Counted(t, plugins, r) && AuthPasses(t, plugins, c, r) && ProxyPasses(t, plugins, c, r)
    && LimitsAs(t, plugins, c, r, VirtualKey)
  }

  ghost predicate Erroneous(t: Topology, plugins: seq<Plugin>, c: Checks, r: Route) {
    || !Sound(t, r)
    || (&& Callable(t, r)
        && (|| MarkedInvalid(t, plugins, r) || BadConfig(t, plugins, c, r)
            || (LimitsAs(t, plugins, c, r, VirtualKey) && !(AuthPasses(t, plugins, c, r) && ProxyPasses(t, plugins, c, r)))))
  }

  /** An enforced endpoint is authenticated, and none is both enforced and an error. */
  lemma EnforcedIsNoError(t: Topology, plugins: seq<Plugin>, c: Checks, r: Route)
    ensures Enforced(t, plugins, c, r) ==> Authenticated(t, plugins, c, r) && !Erroneous(t, plugins, c, r)
  {
  }

  lemma FindsService(t: Topology, s: Service)
    requires UniqueIds(t) && s in t.services
    ensures ServiceById(t, s.id) == Some(s)
  {
    var found := ServiceById(t, s.id);
    var i :| 0 <= i < |t.services| && t.services[i] == s;
    assert HasServiceId(s.id, t.services[i]);
    if found.Some? {
      var j :| 0 <= j < |t.services| && t.services[j] == found.value;
    }
  }

  lemma TogetherIs(t: Topology, a: Option<Id>, b: Option<Id>)
    ensures Together(t, a, b) <==> Workspace(t, a) == Workspace(t, b)
  {
  }

  lemma SoundIs(t: Topology, r: Route)
    requires UniqueIds(t)
    ensures Sound(t, r) <==> Endpoint(t, r)
    ensures Endpoint(t, r) ==> (Callable(t, r) <==> r.service.Some? ==> ServiceById(t, r.service.value).value.enabled)
  {
    forall s | Serves(t, s, r)
      ensures ServiceById(t, r.service.value) == Some(s)
    {
      FindsService(t, s);
    }
    if r.service.Some? && Endpoint(t, r) {
      assert Serves(t, ServiceById(t, r.service.value).value, r);
    }
  }

  lemma ServiceBesideIs(t: Topology, p: Plugin, together: bool)
    requires UniqueIds(t) && p.service.Some?
    ensures ServiceBeside(t, p, together) <==>
            && ServiceById(t, p.service.value).Some?
            && (Workspace(t, ServiceById(t, p.service.value).value.workspace) == Workspace(t, p.workspace)) == together
  {
    forall s | s in t.services && p.service == Some(s.id)
      ensures ServiceById(t, p.service.value) == Some(s)
    {
      FindsService(t, s);
    }
    if ServiceById(t, p.service.value).Some? {
      TogetherIs(t, ServiceById(t, p.service.value).value.workspace, p.workspace);
    }
    if ServiceBeside(t, p, together) {
      var s :| s in t.services && p.service == Some(s.id) && Together(t, s.workspace, p.workspace) == together;
      TogetherIs(t, s.workspace, p.workspace);
    }
  }

  lemma RouteIsAmong(t: Topology, r: Route, service: Id)
    requires UniqueIds(t) && r in t.routes
    ensures r.id in RouteIdsOf(t, service) <==> r.service == Some(service)
  {
    var k :| 0 <= k < |t.routes| && t.routes[k] == r;
  }

  lemma MarksIs(t: Topology, p: Plugin, r: Route)
    requires UniqueIds(t) && r in t.routes
    ensures Marks(t, p, r) <==> Place(t, p).Invalidate? && r.id in Place(t, p).routes
  {
    FindsRoute(t, r);
    TogetherIs(t, p.workspace, r.workspace);
    KindNames(p.name, KeyAuth);
    KindNames(p.name, RateLimit);
    KindNames(p.name, Proxy);
    if p.service.Some? {
      ServiceBesideIs(t, p, true);
      ServiceBesideIs(t, p, false);
      RouteIsAmong(t, r, p.service.value);
    }
  }

  /** A route is in the set of invalid ones exactly when some plugin marks it. */
  lemma {:induction false} InvalidExactlyWhenMarked(t: Topology, plugins: seq<Plugin>, r: Route)
    requires UniqueIds(t) && r in t.routes
    ensures r.id in InvalidRoutes(t, plugins) <==> MarkedInvalid(t, plugins, r)
  {
    if plugins != [] {
      var front, p := plugins[..|plugins| - 1], plugins[|plugins| - 1];
      InvalidExactlyWhenMarked(t, front, r);
      MarksIs(t, p, r);
      assert forall i :: 0 <= i < |front| ==> plugins[i] == front[i];
      assert MarkedInvalid(t, plugins, r) <==> MarkedInvalid(t, front, r) || Marks(t, p, r);
    }
  }

  lemma InForceIs(t: Topology, plugins: seq<Plugin>, r: Route, kind: Kind)
    ensures Runtime(Filter(InWorkspaceOf(t, r), plugins), r, kind) == InForce(t, plugins, r, NameOf(kind))
  {
    forall i | 0 <= i < |plugins|
      ensures TogetherWith(t, r)(plugins[i]) == InWorkspaceOf(t, r)(plugins[i])
    {
      TogetherIs(t, plugins[i].workspace, r.workspace);
    }
    FilterAlike(TogetherWith(t, r), InWorkspaceOf(t, r), plugins);
  }

  /** What a route contributes to the counts is decided by the three predicates. */
  lemma TallyIs(t: Topology, plugins: seq<Plugin>, c: Checks, r: Route, tally: Tally)
    requires UniqueIds(t) && r in t.routes && tally == TableTally(t, plugins, c, r)
    ensures tally.auth == Bit(Authenticated(t, plugins, c, r)) && tally.enforced == Bit(Enforced(t, plugins, c, r))
    ensures tally.errors == Bit(Erroneous(t, plugins, c, r))
  {
    TallyFollowsResolver(t, plugins, c, r);
    SoundIs(t, r);
    InvalidExactlyWhenMarked(t, plugins, r);
    InForceIs(t, plugins, r, KeyAuth);
    InForceIs(t, plugins, r, Proxy);
    InForceIs(t, plugins, r, RateLimit);
    NamesAre();
  }

  lemma NamesAre()
    ensures NameOf(KeyAuth) == "ai-key-auth" && NameOf(Proxy) == "ai-proxy" && NameOf(RateLimit) == "ai-rate-limit"
  {
  }

  /** How many routes there are of a workspace for which p holds. */
  function CountIn(t: Topology, ws: Option<Id>, p: Route -> bool): nat {
    |Filter(p, Filter(RouteIn(t, ws), t.routes))|
  }

  function RouteIn(t: Topology, ws: Option<Id>): Route -> bool {
    (r: Route) => Together(t, r.workspace, ws)
  }

  ghost function AuthenticatedBy(t: Topology, plugins: seq<Plugin>, c: Checks): Route -> bool {
    (r: Route) => Authenticated(t, plugins, c, r)
  }

  ghost function EnforcedBy(t: Topology, plugins: seq<Plugin>, c: Checks): Route -> bool {
    (r: Route) => Enforced(t, plugins, c, r)
  }

  ghost function ErroneousBy(t: Topology, plugins: seq<Plugin>, c: Checks): Route -> bool {
    (r: Route) => Erroneous(t, plugins, c, r)
  }

  /** For every workspace the three counts are the numbers of its routes that are authenticated,
      enforced and erroneous. */
  ghost predicate Counts(t: Topology, plugins: seq<Plugin>, c: Checks, index: Index) {
    forall ws ::
      && CoverageFor(index, ws).available
      && CoverageFor(index, ws).tally.auth == CountIn(t, ws, AuthenticatedBy(t, plugins, c))
      && CoverageFor(index, ws).tally.enforced == CountIn(t, ws, EnforcedBy(t, plugins, c))
      && CoverageFor(index, ws).tally.errors == CountIn(t, ws, ErroneousBy(t, plugins, c))
  }

  lemma FilterOneMore<T>(p: T -> bool, q: T -> bool, s: seq<T>)
    requires s != []
    ensures var front, x := s[..|s| - 1], s[|s| - 1];
            |Filter(p, Filter(q, s))| == |Filter(p, Filter(q, front))| + Bit(q(x) && p(x))
  {
    var front, x := s[..|s| - 1], s[|s| - 1];
    if q(x) {
      assert (Filter(q, front) + [x])[..|Filter(q, front)|] == Filter(q, front);
    }
  }

  /** Adding up the contributions is counting. */
  lemma {:induction false} TallyCounts(t: Topology, plugins: seq<Plugin>, c: Checks, ws: Option<Id>, routes: seq<Route>)
    requires UniqueIds(t) && forall i :: 0 <= i < |routes| ==> routes[i] in t.routes
    ensures var tally := WorkspaceTally(t, TableTallies(t, plugins, c), Workspace(t, ws), routes);
            var own := Filter(RouteIn(t, ws), routes);
            && tally.auth == |Filter(AuthenticatedBy(t, plugins, c), own)|
            && tally.enforced == |Filter(EnforcedBy(t, plugins, c), own)|
            && tally.errors == |Filter(ErroneousBy(t, plugins, c), own)|
  {
    if routes != [] {
      var front, r := routes[..|routes| - 1], routes[|routes| - 1];
      TallyCounts(t, plugins, c, ws, front);
      TallyIs(t, plugins, c, r, TableTally(t, plugins, c, r));
      TogetherIs(t, r.workspace, ws);
      FilterOneMore(AuthenticatedBy(t, plugins, c), RouteIn(t, ws), routes);
      FilterOneMore(EnforcedBy(t, plugins, c), RouteIn(t, ws), routes);
      FilterOneMore(ErroneousBy(t, plugins, c), RouteIn(t, ws), routes);
    }
  }

  lemma IndexCounts(t: Topology, plugins: seq<Plugin>, c: Checks, index: Index)
    requires UniqueIds(t)
    requires forall ws :: CoverageFor(index, ws) ==
               Snapshot(WorkspaceTally(t, TableTallies(t, plugins, c), Workspace(t, ws), t.routes), true)
    ensures Counts(t, plugins, c, index)
  {
    forall ws
      ensures && CoverageFor(index, ws).available
              && CoverageFor(index, ws).tally.auth == CountIn(t, ws, AuthenticatedBy(t, plugins, c))
              && CoverageFor(index, ws).tally.enforced == CountIn(t, ws, EnforcedBy(t, plugins, c))
              && CoverageFor(index, ws).tally.errors == CountIn(t, ws, ErroneousBy(t, plugins, c))
    {
      TallyCounts(t, plugins, c, ws, t.routes);
    }
  }

  datatype Snapshot = Snapshot(tally: Tally, available: bool)

  datatype Index = Index(home: Id, available: bool, byWorkspace: map<Id, Tally>)

  function CoverageFor(index: Index, ws: Option<Id>): Snapshot {
    if !index.available then Snapshot(NONE, false)
    else
      var id := if ws.Some? then ws.value else index.home;
      Snapshot(if id in index.byWorkspace then index.byWorkspace[id] else NONE, true)
  }

  method TallyRoute(t: Topology, plugins: seq<Plugin>, invalid: set<Id>, filed: map<Key, Plugin>, c: Checks, r: Route)
      returns (tally: Tally)
    requires invalid == InvalidRoutes(t, plugins) && filed == Filed(t, plugins)
    ensures tally == TableTally(t, plugins, c, r)
  {
    var ws := Workspace(t, r.workspace);
    if r.service.Some? {
      var service := ServiceById(t, r.service.value);
      if service.None? {
        return ERROR;
      }
      if Workspace(t, service.value.workspace) != ws {
        return ERROR;
      }
      if !service.value.enabled {
        return NONE;
      }
    }
    if r.id in invalid {
      return ERROR;
    }
    var auth := EffectivePlugin(filed, ws, r.id, r.service, KeyAuth);
    var proxy := EffectivePlugin(filed, ws, r.id, r.service, Proxy);
    var rate := EffectivePlugin(filed, ws, r.id, r.service, RateLimit);
    tally := Assess(c, auth, proxy, rate);
  }

  function TallyIn(counts: map<Id, Tally>, ws: Id): Tally {
    if ws in counts then counts[ws] else NONE
  }

  /** The index answers every workspace with the sum over its routes. */
  method Build(t: Topology, plugins: seq<Plugin>, c: Checks) returns (index: Index)
    ensures index.available
    ensures UniqueIds(t) ==> Counts(t, plugins, c, index)
    ensures forall ws :: CoverageFor(index, ws) ==
              Snapshot(WorkspaceTally(t, TableTallies(t, plugins, c), Workspace(t, ws), t.routes), true)
  {
    var invalid, filed := PlaceAll(t, plugins);
    var counts := CountRoutes(t, plugins, invalid, filed, c, TableTallies(t, plugins, c));
    index := Index(t.home, true, counts);
    assert forall ws: Option<Id> :: CoverageFor(index, ws) == Snapshot(TallyIn(counts, Workspace(t, ws)), true);
    if UniqueIds(t) {
      IndexCounts(t, plugins, c, index);
    }
  }

  method CountRoutes(t: Topology, plugins: seq<Plugin>, invalid: set<Id>, filed: map<Key, Plugin>, c: Checks,
                     ghost tallyOf: Route -> Tally) returns (counts: map<Id, Tally>)
    requires invalid == InvalidRoutes(t, plugins) && filed == Filed(t, plugins)
    requires forall r :: tallyOf(r) == TableTally(t, plugins, c, r)
    ensures forall ws :: TallyIn(counts, ws) == WorkspaceTally(t, tallyOf, ws, t.routes)
  {
    counts := map[];
    for i := 0 to |t.routes|
      invariant forall ws :: TallyIn(counts, ws) == WorkspaceTally(t, tallyOf, ws, t.routes[..i])
    {
      var r := t.routes[i];
      var ws := Workspace(t, r.workspace);
      assert t.routes[..i + 1][..i] == t.routes[..i];
      var tally := TallyRoute(t, plugins, invalid, filed, c, r);
      assert tally == tallyOf(r);
      counts := counts[ws := Plus(TallyIn(counts, ws), tally)];
    }
    assert t.routes[..|t.routes|] == t.routes;
  }

  /** With unique ids these sums are what the runtime resolver's choice among the workspace's
      plugins contributes. */
  lemma {:induction false} TotalsFollowResolver(t: Topology, plugins: seq<Plugin>, c: Checks, ws: Id, routes: seq<Route>)
    requires UniqueIds(t) && forall i :: 0 <= i < |routes| ==> routes[i] in t.routes
    ensures WorkspaceTally(t, TableTallies(t, plugins, c), ws, routes)
            == WorkspaceTally(t, ResolverTallies(t, plugins, c), ws, routes)
  {
    if routes != [] {
      TotalsFollowResolver(t, plugins, c, ws, routes[..|routes| - 1]);
      TallyFollowsResolver(t, plugins, c, routes[|routes| - 1]);
    }
  }
}
