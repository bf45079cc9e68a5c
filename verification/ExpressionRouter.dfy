/** The expression router: compile every route's expression, sort by priority, take the first that
    holds. HoldsExactly ties the routes' text to the requests they take. */
module ExpressionRouter {
  import opened Wrappers
  import opened Sorting
  import opened Protocols
  import opened Expressions
  import opened ExpressionGrammar

  datatype Route = Route(id: nat, protocols: seq<string>, expression: Option<string>, priority: Option<int>)
  datatype Compiled = Compiled(route: Route, priority: int, expression: Expression)

  predicate IsHttpRoute(r: Route) {
    AnyHttp(r.protocols)
  }

  /** Routes without an expression, or with one that is rejected, are left out silently. */
  function Compile(compiles: string -> bool, r: Route): Outcome {
    if !IsHttpRoute(r) || r.expression.None? then Rejected else ParseExpression(compiles, r.expression.value)
  }

  function Entry(r: Route, e: Expression): Compiled {
    Compiled(r, if r.priority.Some? then r.priority.value else 0, e)
  }

  function CompileAll(compiles: string -> bool, routes: seq<Route>): seq<Compiled> {
    if routes == [] then []
    else
      var front, r := CompileAll(compiles, routes[..|routes| - 1]), routes[|routes| - 1];
      match Compile(compiles, r)
      case Parsed(e) => front + [Entry(r, e)]
      case _ => front
  }

  predicate HigherFirst(a: Compiled, b: Compiled) {
    a.priority >= b.priority
  }

  function HoldsFor(isMatch: (string, string) -> bool, req: Request): Compiled -> bool {
    (c: Compiled) => Evaluate(isMatch, c.expression, req)
  }

  /** None exactly when no compiled expression holds; otherwise the earliest configured of the
      holding routes with the highest priority. */
  ghost predicate Routed(isMatch: (string, string) -> bool, req: Request, compiled: seq<Compiled>, r: Option<Route>) {
    && (r.None? ==> forall i :: 0 <= i < |compiled| ==> !HoldsFor(isMatch, req)(compiled[i]))
    && (r.Some? ==> exists i: nat :: FirstBest(HigherFirst, HoldsFor(isMatch, req), compiled, i) && r.value == compiled[i].route)
  }

  class ExpressionsRouter {
    const isMatch: (string, string) -> bool
    ghost const compiled: seq<Compiled>
    const routes: seq<Compiled>

    ghost predicate Valid() {
      routes == Sort(HigherFirst, compiled)
    }

    constructor (isMatch: (string, string) -> bool, compiled: seq<Compiled>)
      ensures Valid() && this.isMatch == isMatch && this.compiled == compiled
    {
      this.isMatch, this.compiled, this.routes := isMatch, compiled, Sort(HigherFirst, compiled);
    }

    method FindRouteUncached(req: Request) returns (r: Option<Route>)
      requires Valid()
      ensures Routed(isMatch, req, compiled, r)
    {
      r := None;
      for k := 0 to |routes|
        invariant forall l :: 0 <= l < k ==> !HoldsFor(isMatch, req)(routes[l])
      {
        if Evaluate(isMatch, routes[k].expression, req) {
          assert HoldsFor(isMatch, req)(routes[k]);
          HigherFirstOrders();
          ghost var i := FirstHitIsBest(HigherFirst, HoldsFor(isMatch, req), compiled, routes, k);
          return Some(routes[k].route);
        }
      }
      NoHit(HigherFirst, HoldsFor(isMatch, req), compiled, routes);
    }
  }

  lemma HigherFirstOrders()
    ensures TotalPreorder(HigherFirst)
  {
  }

  /** Compiling fails as a whole, by a panic, exactly when some route's expression panics; otherwise
      the router holds the compiled routes. */
  method CompileRoutes(compiles: string -> bool, routes: seq<Route>) returns (r: Option<seq<Compiled>>)
    ensures r.None? <==> exists i :: 0 <= i < |routes| && Compile(compiles, routes[i]).Panicked?
    ensures r.Some? ==> r.value == CompileAll(compiles, routes)
  {
    var compiled: seq<Compiled> := [];
    for i := 0 to |routes|
      invariant compiled == CompileAll(compiles, routes[..i])
      invariant forall j :: 0 <= j < i ==> !Compile(compiles, routes[j]).Panicked?
    {
      assert routes[..i + 1][..i] == routes[..i];
      match Compile(compiles, routes[i])
      case Parsed(e) =>
        compiled := compiled + [Entry(routes[i], e)];
      case Rejected =>
      case Panicked => return None;
    }
    assert routes[..|routes|] == routes;
    return Some(compiled);
  }

  // ---------------------------------------------------------------- what the text says

  /** The part of a request a field names. */
  function Reads(f: Field, req: Request): Option<string> {
    FieldValue(Folded(f), req)
  }

  /** What a sentence says about a request, read off the sentence: a missing header or SNI makes
      every test fail except !=. */
  predicate Says(isMatch: (string, string) -> bool, x: Syntax, req: Request) {
    match x
    case Empty => true
    case Test(f, Equal, v) => Reads(f, req).Some? && Reads(f, req).value == v
    case Test(f, NotEqual, v) => Reads(f, req).Some? ==> Reads(f, req).value != v
    case Test(f, Matches, v) => Reads(f, req).Some? && isMatch(v, Reads(f, req).value)
    case Member(f, vs) => exists i :: 0 <= i < |vs| && Reads(f, req) == Some(vs[i])
    case Paren(y) => Says(isMatch, y, req)
    case Conj(l, r) => Says(isMatch, l, req) && Says(isMatch, r, req)
    case Disj(l, r) => Says(isMatch, l, req) || Says(isMatch, r, req)
  }

  lemma {:induction false} MeaningSays(isMatch: (string, string) -> bool, x: Syntax, req: Request)
    ensures Evaluate(isMatch, Meaning(x), req) == Says(isMatch, x, req)
  {
    match x
    case Empty =>
    case Test(_, _, _) =>
    case Member(_, _) =>
    case Paren(y) => MeaningSays(isMatch, y, req);
    case Conj(l, r) =>
      MeaningSays(isMatch, l, req);
      MeaningSays(isMatch, r, req);
    case Disj(l, r) =>
      MeaningSays(isMatch, l, req);
      MeaningSays(isMatch, r, req);
  }

  // What each field's tests compare, from the literal text.

  /** The text parses, and holds for the request. */
  predicate Holds(compiles: string -> bool, isMatch: (string, string) -> bool, text: string, req: Request) {
    match ParseExpression(compiles, text)
    case Parsed(e) => Evaluate(isMatch, e, req)
    case _ => false
  }

  /** The text tests the named field with the given operator against v in double quotes. */
  ghost predicate Asks(text: string, name: string, op: string, v: string) {
    Trim(text) == name + op + ("\"" + v + "\"")
  }

  /** A test of the named field by text compares the value given. */
  ghost predicate Compares(compiles: string -> bool, isMatch: (string, string) -> bool, name: string, value: Option<string>,
                           req: Request, text: string, v: string) {
    && (TestOk(compiles, Equal, v) && Asks(text, name, " == ", v) ==> (Holds(compiles, isMatch, text, req) <==> value == Some(v)))
    && (TestOk(compiles, NotEqual, v) && Asks(text, name, " != ", v) ==> (Holds(compiles, isMatch, text, req) <==> value != Some(v)))
    && (TestOk(compiles, Matches, v) && Asks(text, name, " ~ ", v) ==>
          (Holds(compiles, isMatch, text, req) <==> value.Some? && isMatch(v, value.value)))
  }

  /** A membership test of the named field by text looks for the value given. */
  ghost predicate LooksFor(compiles: string -> bool, isMatch: (string, string) -> bool, name: string, value: Option<string>,
                           req: Request, text: string, vs: seq<string>) {
    vs != [] && (forall i :: 0 <= i < |vs| ==> MemberOk(vs[i])) && Trim(text) == name + " in " + Listed(vs) ==>
      (Holds(compiles, isMatch, text, req) <==> value.Some? && value.value in vs)
  }

  ghost predicate Tests(compiles: string -> bool, isMatch: (string, string) -> bool, name: string, value: Option<string>, req: Request) {
    && (forall text, v :: Compares(compiles, isMatch, name, value, req, text, v))
    && (forall text, vs :: LooksFor(compiles, isMatch, name, value, req, text, vs))
  }

  lemma FieldCompares(compiles: string -> bool, isMatch: (string, string) -> bool, f: Field, req: Request, text: string, v: string)
    requires FieldOk(f)
    ensures Compares(compiles, isMatch, FieldText(f), Reads(f, req), req, text, v)
  {
    if TestOk(compiles, Equal, v) && Asks(text, FieldText(f), " == ", v) {
      HoldsExactly(compiles, isMatch, Test(f, Equal, v), text, req);
    }
    if TestOk(compiles, NotEqual, v) && Asks(text, FieldText(f), " != ", v) {
      HoldsExactly(compiles, isMatch, Test(f, NotEqual, v), text, req);
    }
    if TestOk(compiles, Matches, v) && Asks(text, FieldText(f), " ~ ", v) {
      HoldsExactly(compiles, isMatch, Test(f, Matches, v), text, req);
    }
  }

  lemma FieldLooksFor(compiles: string -> bool, isMatch: (string, string) -> bool, f: Field, req: Request, text: string, vs: seq<string>)
    requires FieldOk(f)
    ensures LooksFor(compiles, isMatch, FieldText(f), Reads(f, req), req, text, vs)
  {
    if vs != [] && (forall i :: 0 <= i < |vs| ==> MemberOk(vs[i])) && Trim(text) == FieldText(f) + " in " + Listed(vs) {
      HoldsExactly(compiles, isMatch, Member(f, vs), text, req);
    }
  }

  lemma FieldTests(compiles: string -> bool, isMatch: (string, string) -> bool, f: Field, name: string, value: Option<string>, req: Request)
    requires FieldOk(f) && name == FieldText(f) && value == Reads(f, req)
    ensures Tests(compiles, isMatch, name, value, req)
  {
    forall text, v
      ensures Compares(compiles, isMatch, name, value, req, text, v)
    {
      FieldCompares(compiles, isMatch, f, req, text, v);
    }
    forall text, vs
      ensures LooksFor(compiles, isMatch, name, value, req, text, vs)
    {
      FieldLooksFor(compiles, isMatch, f, req, text, vs);
    }
  }

  lemma MethodTests(compiles: string -> bool, isMatch: (string, string) -> bool, req: Request)
    ensures Tests(compiles, isMatch, "http.method", Some(req.method_), req)
  {
    FieldTests(compiles, isMatch, HttpMethod, "http.method", Some(req.method_), req);
  }

  lemma HostTests(compiles: string -> bool, isMatch: (string, string) -> bool, req: Request)
    ensures Tests(compiles, isMatch, "http.host", Some(req.host), req)
  {
    FieldTests(compiles, isMatch, HttpHost, "http.host", Some(req.host), req);
  }

  lemma PathTests(compiles: string -> bool, isMatch: (string, string) -> bool, req: Request)
    ensures Tests(compiles, isMatch, "http.path", Some(req.uri), req)
  {
    FieldTests(compiles, isMatch, HttpPath, "http.path", Some(req.uri), req);
  }

  lemma ProtocolTests(compiles: string -> bool, isMatch: (string, string) -> bool, req: Request)
    ensures Tests(compiles, isMatch, "net.protocol", Some(req.scheme), req)
  {
    FieldTests(compiles, isMatch, NetProtocol, "net.protocol", Some(req.scheme), req);
  }

  lemma SniTests(compiles: string -> bool, isMatch: (string, string) -> bool, req: Request)
    ensures Tests(compiles, isMatch, "tls.sni", req.sni, req)
  {
    FieldTests(compiles, isMatch, TlsSni, "tls.sni", req.sni, req);
  }

  /** key is name with the letters A to Z in lower case. */
  ghost predicate InLowerCase(name: string, key: string) {
    && |key| == |name|
    && forall i :: 0 <= i < |name| ==> LowerCaseOf(name[i], key[i])
  }

  ghost predicate LowerCaseOf(c: char, d: char) {
    if 'A' <= c <= 'Z' then d as int - 'a' as int == c as int - 'A' as int else d == c
  }

  /** A header is looked up by its name in lower case. */
  lemma HeaderTests(compiles: string -> bool, isMatch: (string, string) -> bool, req: Request, name: string, key: string)
    requires (forall i :: 0 <= i < |name| ==> NameChar(name[i])) && InLowerCase(name, key)
    ensures Tests(compiles, isMatch, "http.headers." + name, if key in req.headers then Some(req.headers[key]) else None, req)
  {
    LowerIs(name, key);
    FieldTests(compiles, isMatch, HttpHeader(name), "http.headers." + name,
               if key in req.headers then Some(req.headers[key]) else None, req);
  }

  lemma {:induction false} LowerIs(name: string, key: string)
    requires InLowerCase(name, key)
    ensures Lower(name) == key
  {
    if name != [] {
      assert LowerCaseOf(name[0], key[0]);
      forall i | 0 <= i < |name| - 1
        ensures LowerCaseOf(name[1..][i], key[1..][i])
      {
        assert LowerCaseOf(name[i + 1], key[i + 1]);
      }
      LowerIs(name[1..], key[1..]);
      assert key == [key[0]] + key[1..];
    }
  }

  /** How a list of values is written. */
  lemma ListedPair(a: string, b: string)
    ensures Listed([a]) == "\"" + a + "\"" && Listed([a, b]) == "\"" + a + "\"" + (", " + ("\"" + b + "\""))
  {
    assert [a, b][1..] == [b];
  }

  /** Parsing and evaluating the text of any sentence decides what the sentence says. */
  lemma HoldsExactly(compiles: string -> bool, isMatch: (string, string) -> bool, x: Syntax, input: string, req: Request)
    requires Sentence(compiles, x) && Trim(input) == Text(x)
    ensures ParseExpression(compiles, input).Parsed?
    ensures Evaluate(isMatch, ParseExpression(compiles, input).expr, req) <==> Says(isMatch, x, req)
  {
    ParsesEverySentence(compiles, x, input);
    MeaningSays(isMatch, x, req);
  }

  // ---------------------------------------------------------------- from text to route

  /** Every route takes HTTP and its expression is the text of a sentence. */
  ghost predicate Written(compiles: string -> bool, routes: seq<Route>, xs: seq<Syntax>) {
    && |xs| == |routes|
    && forall i :: 0 <= i < |routes| ==> WrittenAs(compiles, routes[i], xs[i])
  }

  ghost predicate WrittenAs(compiles: string -> bool, r: Route, x: Syntax) {
    ServesHttp(r.protocols) && r.expression.Some? && Sentence(compiles, x) && Trim(r.expression.value) == Text(x)
  }

  function Meanings(xs: seq<Syntax>): (es: seq<Expression>)
    ensures |es| == |xs| && forall i :: 0 <= i < |xs| ==> es[i] == Meaning(xs[i])
  {
    seq(|xs|, i requires 0 <= i < |xs| => Meaning(xs[i]))
  }

  ghost predicate CompileTo(compiles: string -> bool, routes: seq<Route>, es: seq<Expression>) {
    |es| == |routes| && forall i :: 0 <= i < |routes| ==> Compile(compiles, routes[i]) == Parsed(es[i])
  }

  lemma WrittenCompiles(compiles: string -> bool, routes: seq<Route>, xs: seq<Syntax>)
    requires Written(compiles, routes, xs)
    ensures CompileTo(compiles, routes, Meanings(xs))
  {
    forall i | 0 <= i < |routes|
      ensures Compile(compiles, routes[i]) == Parsed(Meaning(xs[i]))
    {
      assert WrittenAs(compiles, routes[i], xs[i]);
      AnyHttpIs(routes[i].protocols);
      ParsesEverySentence(compiles, xs[i], routes[i].expression.value);
    }
  }

  lemma {:induction false} CompilesEach(compiles: string -> bool, routes: seq<Route>, es: seq<Expression>)
    requires CompileTo(compiles, routes, es)
    ensures |CompileAll(compiles, routes)| == |routes|
    ensures forall i :: 0 <= i < |routes| ==> CompileAll(compiles, routes)[i] == Entry(routes[i], es[i])
  {
    if routes != [] {
      var n := |routes| - 1;
      assert Compile(compiles, routes[n]) == Parsed(es[n]);
      CompilesEach(compiles, routes[..n], es[..n]);
    }
  }

  /** Higher priority, or the same and configured no later. */
  predicate Outranks(routes: seq<Route>, i: nat, j: nat)
    requires i < |routes| && j < |routes|
  {
    ConfiguredPriority(routes[i]) > ConfiguredPriority(routes[j])
    || (ConfiguredPriority(routes[i]) == ConfiguredPriority(routes[j]) && i <= j)
  }

  /** The configured priority, 0 if there is none. */
  function ConfiguredPriority(r: Route): int {
    match r.priority
    case Some(n) => n
    case None => 0
  }

  /** The route at i says the request is its own, and outranks all others that do. */
  ghost predicate Leads(isMatch: (string, string) -> bool, req: Request, routes: seq<Route>, xs: seq<Syntax>, i: nat)
    requires |xs| == |routes|
  {
    && i < |routes| && Says(isMatch, xs[i], req)
    && forall j :: 0 <= j < |routes| && Says(isMatch, xs[j], req) ==> Outranks(routes, i, j)
  }

  lemma HoldsWhenItSays(compiles: string -> bool, isMatch: (string, string) -> bool, req: Request, routes: seq<Route>, xs: seq<Syntax>, i: nat)
    requires Written(compiles, routes, xs) && i < |routes|
    ensures i < |CompileAll(compiles, routes)|
    ensures HoldsFor(isMatch, req)(CompileAll(compiles, routes)[i]) <==> Says(isMatch, xs[i], req)
  {
    WrittenCompiles(compiles, routes, xs);
    CompilesEach(compiles, routes, Meanings(xs));
    MeaningSays(isMatch, xs[i], req);
  }

  /** Routes written as sentences all compile, and a request is taken by the earliest configured of the
      highest-priority routes whose sentence says so, or by none exactly when no sentence does. */
  lemma TakesWhatItSays(compiles: string -> bool, isMatch: (string, string) -> bool, req: Request,
                        routes: seq<Route>, xs: seq<Syntax>, r: Option<Route>)
    requires Written(compiles, routes, xs) && Routed(isMatch, req, CompileAll(compiles, routes), r)
    ensures forall i :: 0 <= i < |routes| ==> !Compile(compiles, routes[i]).Panicked?
    ensures r.None? <==> forall i :: 0 <= i < |xs| ==> !Says(isMatch, xs[i], req)
    ensures r.Some? ==> exists i: nat :: Leads(isMatch, req, routes, xs, i) && r.value == routes[i]
  {
    var compiled := CompileAll(compiles, routes);
    WrittenCompiles(compiles, routes, xs);
    CompilesEach(compiles, routes, Meanings(xs));
    forall i | 0 <= i < |routes|
      ensures HoldsFor(isMatch, req)(compiled[i]) <==> Says(isMatch, xs[i], req)
    {
      HoldsWhenItSays(compiles, isMatch, req, routes, xs, i);
    }
    if r.Some? {
      BestLeads(isMatch, req, routes, xs, compiled, r.value);
    }
  }

  lemma BestLeads(isMatch: (string, string) -> bool, req: Request, routes: seq<Route>, xs: seq<Syntax>, compiled: seq<Compiled>, r: Route)
    requires |routes| == |xs| == |compiled|
    requires forall i :: 0 <= i < |routes| ==> compiled[i] == Entry(routes[i], Meaning(xs[i]))
    requires forall i :: 0 <= i < |routes| ==> (HoldsFor(isMatch, req)(compiled[i]) <==> Says(isMatch, xs[i], req))
    requires exists i: nat :: FirstBest(HigherFirst, HoldsFor(isMatch, req), compiled, i) && r == compiled[i].route
    ensures exists i: nat :: Leads(isMatch, req, routes, xs, i) && r == routes[i]
  {
    var i: nat :| FirstBest(HigherFirst, HoldsFor(isMatch, req), compiled, i) && r == compiled[i].route;
    forall j | 0 <= j < |routes| && Says(isMatch, xs[j], req)
      ensures Outranks(routes, i, j)
    {
      assert HigherFirst(compiled[i], compiled[j]) && (j < i ==> !HigherFirst(compiled[j], compiled[i]));
    }
    assert Leads(isMatch, req, routes, xs, i);
  }
}
