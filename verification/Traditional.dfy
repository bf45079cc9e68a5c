/** The traditional HTTP router: preprocess every route, sort, bucket by which criteria a route
    has, and take the first match in bucket order. Routed says what that amounts to. */
module Traditional {
  import opened Wrappers
  import opened Sorting
  import opened Bits
  import opened Protocols

  /** Text and regular-expression primitives the router calls. */
  datatype Engine = Engine(lower: string -> string, upper: string -> string,
                           compiles: string -> bool, isMatch: (string, string) -> bool)

  datatype Route = Route(id: nat, hosts: seq<string>, paths: seq<string>, methods: seq<string>,
                         headers: seq<(string, seq<string>)>, snis: seq<string>, protocols: seq<string>,
                         regexPriority: int, createdAt: int)

  datatype Request = Request(method_: string, uri: string, host: string, scheme: string,
                             headers: map<string, string>, sni: Option<string>)

  datatype HeaderMatcher = HeaderMatcher(name: string, values: set<string>, pattern: Option<string>)

  datatype Processed = Processed(
    route: Route, matchWeight: nat, submatch: nat, rules: nat,
    plainHosts: seq<string>, wildcardHosts: seq<string>,
    prefixPaths: seq<string>, regexPaths: seq<string>, maxUriLength: nat,
    methods: set<string>, headers: seq<HeaderMatcher>, snis: set<string>)

  // Bit values of match_rules and submatch_weight.
  const MATCH_HOST := 0x40
  const MATCH_HEADER := 0x20
  const MATCH_URI := 0x10
  const MATCH_METHOD := 0x08
  const MATCH_SNI := 0x04
  const SUB_HAS_REGEX_URI := 0x01
  const SUB_PLAIN_HOSTS_ONLY := 0x02

  // ---------------------------------------------------------------- preprocessing

  predicate HasWildcard(host: string) {
    '*' in host
  }

  /** The regular expression for a wildcard host: dots escaped, each star one or more characters. */
  function WildcardBody(host: string): string {
    if host == [] then []
    else (if host[0] == '.' then "\\." else if host[0] == '*' then ".+" else [host[0]]) + WildcardBody(host[1..])
  }

  function WildcardPattern(host: string): string {
    "^" + WildcardBody(host) + "$"
  }

  function PlainHosts(e: Engine, hosts: seq<string>): seq<string> {
    if hosts == [] then []
    else
      var front, h := PlainHosts(e, hosts[..|hosts| - 1]), e.lower(hosts[|hosts| - 1]);
      if HasWildcard(h) then front else front + [h]
  }

  function WildcardHosts(e: Engine, hosts: seq<string>): seq<string> {
    if hosts == [] then []
    else
      var front, h := WildcardHosts(e, hosts[..|hosts| - 1]), e.lower(hosts[|hosts| - 1]);
      if HasWildcard(h) && e.compiles(WildcardPattern(h)) then front + [WildcardPattern(h)] else front
  }

  predicate PlainOnly(e: Engine, hosts: seq<string>) {
    forall i :: 0 <= i < |hosts| ==> !HasWildcard(e.lower(hosts[i]))
  }

  predicate IsRegexPath(path: string) {
    path != [] && path[0] == '~'
  }

  predicate AnyRegex(paths: seq<string>) {
    exists i :: 0 <= i < |paths| && IsRegexPath(paths[i])
  }

  function RegexPaths(e: Engine, paths: seq<string>): seq<string> {
    if paths == [] then []
    else
      var front, p := RegexPaths(e, paths[..|paths| - 1]), paths[|paths| - 1];
      if IsRegexPath(p) && e.compiles(p[1..]) then front + [p[1..]] else front
  }

  function PrefixPaths(paths: seq<string>): seq<string> {
    if paths == [] then []
    else
      var front, p := PrefixPaths(paths[..|paths| - 1]), paths[|paths| - 1];
      if IsRegexPath(p) then front else front + [p]
  }

  function LongestLength(paths: seq<string>): nat {
    if paths == [] then 0
    else
      var front, p := LongestLength(paths[..|paths| - 1]), paths[|paths| - 1];
      if !IsRegexPath(p) && |p| > front then |p| else front
  }

  predicate LongerFirst(a: string, b: string) {
    |a| >= |b|
  }

  predicate IsPattern(value: string) {
    |value| >= 2 && value[0] == '~' && value[1] == '*'
  }

  /** The last pattern among the values counts, if it compiles. */
  function HeaderPattern(e: Engine, values: seq<string>): Option<string> {
    if values == [] then None
    else
      var v := values[|values| - 1];
      if IsPattern(v) then (if e.compiles(v[2..]) then Some(v[2..]) else None)
      else HeaderPattern(e, values[..|values| - 1])
  }

  function HeaderValues(e: Engine, values: seq<string>): set<string> {
    set v | v in values && !IsPattern(v) :: e.lower(v)
  }

  function MatcherOf(e: Engine, header: (string, seq<string>)): HeaderMatcher {
    HeaderMatcher(e.lower(header.0), HeaderValues(e, header.1), HeaderPattern(e, header.1))
  }

  function MatcherBy(e: Engine): ((string, seq<string>)) -> HeaderMatcher {
    (header: (string, seq<string>)) => MatcherOf(e, header)
  }

  function TrimEnd(s: string, c: char): (r: string)
    ensures r <= s
    ensures r == [] || r[|r| - 1] != c
    ensures forall i :: |r| <= i < |s| ==> s[i] == c
  {
    if s != [] && s[|s| - 1] == c then TrimEnd(s[..|s| - 1], c) else s
  }

  function Uppers(e: Engine, methods: seq<string>): set<string> {
    set m | m in methods :: e.upper(m)
  }

  function Trimmed(snis: seq<string>): set<string> {
    set s | s in snis :: TrimEnd(s, '.')
  }

  function Submatch(e: Engine, r: Route): nat {
    If(AnyRegex(r.paths), SUB_HAS_REGEX_URI)
    + If(PlainOnly(e, r.hosts) && PlainHosts(e, r.hosts) != [], SUB_PLAIN_HOSTS_ONLY)
  }

  function Rules(r: Route): nat {
    If(r.hosts != [], MATCH_HOST) + If(r.paths != [], MATCH_URI) + If(r.methods != [], MATCH_METHOD)
    + If(r.headers != [], MATCH_HEADER) + If(r.snis != [], MATCH_SNI)
  }

  function Weight(r: Route): nat {
    If(r.hosts != [], 1) + If(r.paths != [], 1) + If(r.methods != [], 1) + If(r.headers != [], 1) + If(r.snis != [], 1)
  }

  function Process(e: Engine, r: Route): Processed {
    Processed(r, Weight(r), Submatch(e, r), Rules(r),
              PlainHosts(e, r.hosts), WildcardHosts(e, r.hosts),
              Sort(LongerFirst, PrefixPaths(r.paths)), RegexPaths(e, r.paths), LongestLength(r.paths),
              Uppers(e, r.methods), Map(MatcherBy(e), r.headers), Trimmed(r.snis))
  }

  method ProcessHosts(e: Engine, hosts: seq<string>) returns (plain: seq<string>, wildcard: seq<string>, plainOnly: bool)
    ensures plain == PlainHosts(e, hosts) && wildcard == WildcardHosts(e, hosts) && plainOnly == PlainOnly(e, hosts)
  {
    plain, wildcard, plainOnly := [], [], true;
    for i := 0 to |hosts|
      invariant plain == PlainHosts(e, hosts[..i]) && wildcard == WildcardHosts(e, hosts[..i])
      invariant plainOnly == PlainOnly(e, hosts[..i])
    {
      assert hosts[..i + 1][..i] == hosts[..i];
      var host := e.lower(hosts[i]);
      if HasWildcard(host) {
        assert hosts[..i + 1][i] == hosts[i];
        plainOnly := false;
        if e.compiles(WildcardPattern(host)) {
          wildcard := wildcard + [WildcardPattern(host)];
        }
      } else {
        assert forall k :: 0 <= k < i ==> hosts[..i + 1][k] == hosts[..i][k];
        plain := plain + [host];
      }
    }
    assert hosts[..|hosts|] == hosts;
  }

  method ProcessPaths(e: Engine, paths: seq<string>) returns (prefix: seq<string>, regex: seq<string>, longest: nat, hasRegex: bool)
    ensures prefix == Sort(LongerFirst, PrefixPaths(paths)) && regex == RegexPaths(e, paths)
    ensures longest == LongestLength(paths)
    ensures hasRegex == AnyRegex(paths)
  {
    prefix, regex, longest, hasRegex := [], [], 0, false;
    for i := 0 to |paths|
      invariant prefix == PrefixPaths(paths[..i]) && regex == RegexPaths(e, paths[..i])
      invariant longest == LongestLength(paths[..i])
      invariant hasRegex <==> exists k :: 0 <= k < i && IsRegexPath(paths[k])
    {
      assert paths[..i + 1][..i] == paths[..i];
      var path := paths[i];
      if IsRegexPath(path) {
        hasRegex := true;
        if e.compiles(path[1..]) {
          regex := regex + [path[1..]];
        }
      } else {
        longest := if |path| > longest then |path| else longest;
        prefix := prefix + [path];
      }
    }
    assert paths[..|paths|] == paths;
    prefix := Sort(LongerFirst, prefix);
  }

  method ProcessHeader(e: Engine, header: (string, seq<string>)) returns (m: HeaderMatcher)
    ensures m == MatcherOf(e, header)
  {
    var values: set<string> := {};
    var pattern: Option<string> := None;
    for i := 0 to |header.1|
      invariant values == HeaderValues(e, header.1[..i]) && pattern == HeaderPattern(e, header.1[..i])
    {
      var v := header.1[i];
      assert header.1[..i + 1] == header.1[..i] + [v];
      if IsPattern(v) {
        pattern := if e.compiles(v[2..]) then Some(v[2..]) else None;
      } else {
        values := values + {e.lower(v)};
      }
    }
    assert header.1[..|header.1|] == header.1;
    m := HeaderMatcher(e.lower(header.0), values, pattern);
  }

  method ProcessHeaders(e: Engine, headers: seq<(string, seq<string>)>) returns (matchers: seq<HeaderMatcher>)
    ensures matchers == Map(MatcherBy(e), headers)
  {
    matchers := [];
    for i := 0 to |headers|
      invariant matchers == Map(MatcherBy(e), headers[..i])
    {
      var m := ProcessHeader(e, headers[i]);
      matchers := matchers + [m];
    }
    assert headers[..|headers|] == headers;
  }

  /** An absent list and an empty list count the same: neither is a criterion. */
  method ProcessRoute(e: Engine, r: Route) returns (p: Processed)
    ensures p == Process(e, r)
  {
    var plain, wildcard, plainOnly := ProcessHosts(e, r.hosts);
    var matchWeight, rules := If(r.hosts != [], 1), If(r.hosts != [], MATCH_HOST);
    var submatch := If(plainOnly && plain != [], SUB_PLAIN_HOSTS_ONLY);
    var prefix, regex, longest, hasRegex := ProcessPaths(e, r.paths);
    matchWeight, rules := matchWeight + If(r.paths != [], 1), rules + If(r.paths != [], MATCH_URI);
    submatch := submatch + If(hasRegex, SUB_HAS_REGEX_URI);
    var methods := Uppers(e, r.methods);
    matchWeight, rules := matchWeight + If(r.methods != [], 1), rules + If(r.methods != [], MATCH_METHOD);
    var matchers := ProcessHeaders(e, r.headers);
    matchWeight, rules := matchWeight + If(r.headers != [], 1), rules + If(r.headers != [], MATCH_HEADER);
    var snis := Trimmed(r.snis);
    matchWeight, rules := matchWeight + If(r.snis != [], 1), rules + If(r.snis != [], MATCH_SNI);
    assert matchWeight == Weight(r) && rules == Rules(r) && submatch == Submatch(e, r);
    p := Processed(r, matchWeight, submatch, rules, plain, wildcard, prefix, regex, longest, methods, matchers, snis);
  }

  // ---------------------------------------------------------------- matching one route

  function HostNoPort(host: string): (r: string)
    ensures r <= host && ':' !in r && (r == host || host[|r|] == ':')
  {
    if host == [] || host[0] == ':' then [] else [host[0]] + HostNoPort(host[1..])
  }

  predicate AnyMatch(e: Engine, patterns: seq<string>, text: string) {
    exists i :: 0 <= i < |patterns| && e.isMatch(patterns[i], text)
  }

  predicate MatchHost(e: Engine, p: Processed, host: string) {
    || host in p.plainHosts || HostNoPort(host) in p.plainHosts
    || AnyMatch(e, p.wildcardHosts, host) || AnyMatch(e, p.wildcardHosts, HostNoPort(host))
  }

  predicate MatchHeader(e: Engine, m: HeaderMatcher, headers: map<string, string>) {
    && m.name in headers
    && var v := e.lower(headers[m.name]);
       v in m.values || (m.pattern.Some? && e.isMatch(m.pattern.value, v))
  }

  predicate MatchHeaders(e: Engine, ms: seq<HeaderMatcher>, headers: map<string, string>) {
    forall i :: 0 <= i < |ms| ==> MatchHeader(e, ms[i], headers)
  }

  /** Whole segments only: the path itself, the path followed by a slash, or the root. */
  predicate PrefixMatches(path: string, uri: string) {
    uri == path || TrimEnd(path, '/') + "/" <= uri || path == "/"
  }

  predicate AnyPrefix(paths: seq<string>, uri: string) {
    exists i :: 0 <= i < |paths| && PrefixMatches(paths[i], uri)
  }

  predicate MatchUri(e: Engine, p: Processed, uri: string) {
    AnyMatch(e, p.regexPaths, uri) || AnyPrefix(p.prefixPaths, uri)
  }

  predicate MatchSni(p: Processed, req: Request) {
    req.scheme == "http" || req.scheme == "https" || (req.sni.Some? && req.sni.value in p.snis)
  }

  predicate SchemeMatches(protocol: string, scheme: string) {
    || protocol == scheme
    || (protocol == "grpc" && scheme == "http") || (protocol == "grpcs" && scheme == "https")
    || (protocol == "ws" && scheme == "http") || (protocol == "wss" && scheme == "https")
  }

  predicate MatchProtocol(r: Route, scheme: string) {
    r.protocols != [] ==> exists i :: 0 <= i < |r.protocols| && SchemeMatches(r.protocols[i], scheme)
  }

  predicate MatchRoute(e: Engine, req: Request, p: Processed) {
    && (Has(p.rules, MATCH_HOST) ==> MatchHost(e, p, e.lower(req.host)))
    && (Has(p.rules, MATCH_HEADER) ==> MatchHeaders(e, p.headers, req.headers))
    && (Has(p.rules, MATCH_URI) ==> MatchUri(e, p, req.uri))
    && (Has(p.rules, MATCH_METHOD) ==> e.upper(req.method_) in p.methods)
    && (Has(p.rules, MATCH_SNI) ==> MatchSni(p, req))
    && MatchProtocol(p.route, req.scheme)
  }

  // ---------------------------------------------------------------- what a match means

  predicate HostFits(e: Engine, host: string, req: string) {
    if '*' in e.lower(host) then
      var pattern := WildcardPattern(e.lower(host));
      e.compiles(pattern) && (e.isMatch(pattern, req) || e.isMatch(pattern, HostNoPort(req)))
    else e.lower(host) == req || e.lower(host) == HostNoPort(req)
  }

  predicate PathFits(e: Engine, path: string, uri: string) {
    if "~" <= path then e.compiles(path[1..]) && e.isMatch(path[1..], uri)
    else path == uri || path == "/" || TrimEnd(path, '/') + "/" <= uri
  }

  ghost predicate AnyHostFits(e: Engine, hosts: seq<string>, req: string) {
    exists i :: 0 <= i < |hosts| && HostFits(e, hosts[i], req)
  }

  ghost predicate AnyPathFits(e: Engine, paths: seq<string>, uri: string) {
    exists i :: 0 <= i < |paths| && PathFits(e, paths[i], uri)
  }

  ghost predicate PlainValueIs(e: Engine, values: seq<string>, v: string) {
    exists i :: 0 <= i < |values| && !("~*" <= values[i]) && e.lower(values[i]) == v
  }

  /** The last of the values that is a pattern compiles and matches. */
  ghost predicate LastPatternMatches(e: Engine, values: seq<string>, v: string) {
    exists i :: 0 <= i < |values| && "~*" <= values[i] && NoPatternAfter(values, i)
      && e.compiles(values[i][2..]) && e.isMatch(values[i][2..], v)
  }

  ghost predicate NoPatternAfter(values: seq<string>, i: nat) {
    forall k :: i < k < |values| ==> !("~*" <= values[k])
  }

  ghost predicate HeaderFits(e: Engine, name: string, values: seq<string>, headers: map<string, string>) {
    && e.lower(name) in headers
    && var v := e.lower(headers[e.lower(name)]);
       PlainValueIs(e, values, v) || LastPatternMatches(e, values, v)
  }

  ghost predicate AllHeadersFit(e: Engine, required: seq<(string, seq<string>)>, headers: map<string, string>) {
    forall i :: 0 <= i < |required| ==> HeaderFits(e, required[i].0, required[i].1, headers)
  }

  ghost predicate AnyMethodFits(e: Engine, methods: seq<string>, m: string) {
    exists i :: 0 <= i < |methods| && e.upper(methods[i]) == e.upper(m)
  }

  ghost predicate AnySniFits(snis: seq<string>, sni: string) {
    exists i :: 0 <= i < |snis| && TrimEnd(snis[i], '.') == sni
  }

  /** A list of protocols takes a scheme it names; http is also taken by grpc and ws, https by
      grpcs and wss. No list at all takes every scheme. */
  ghost predicate ProtocolFits(protocols: seq<string>, scheme: string) {
    || protocols == [] || scheme in protocols
    || (scheme == "http" && ("grpc" in protocols || "ws" in protocols))
    || (scheme == "https" && ("grpcs" in protocols || "wss" in protocols))
  }

  /** Every criterion the route states is met: one of its hosts, one of its paths, one of its
      methods, all of its headers, one of its SNIs (off HTTP), one of its protocols. */
  ghost predicate Fits(e: Engine, req: Request, r: Route) {
    && (r.hosts != [] ==> AnyHostFits(e, r.hosts, e.lower(req.host)))
    && AllHeadersFit(e, r.headers, req.headers)
    && (r.paths != [] ==> AnyPathFits(e, r.paths, req.uri))
    && (r.methods != [] ==> AnyMethodFits(e, r.methods, req.method_))
    && (r.snis != [] && req.scheme != "http" && req.scheme != "https" ==> req.sni.Some? && AnySniFits(r.snis, req.sni.value))
    && ProtocolFits(r.protocols, req.scheme)
  }

  /** Every character but the star and the dot stands for itself, wherever it is. */
  lemma {:induction false} WildcardBodyAppends(a: string, b: string)
    ensures WildcardBody(a + b) == WildcardBody(a) + WildcardBody(b)
  {
    if a == [] {
      assert a + b == b;
    } else {
      assert (a + b)[1..] == a[1..] + b;
      WildcardBodyAppends(a[1..], b);
    }
  }

  lemma {:induction false} PlainTextIsLiteral(a: string)
    requires '*' !in a && '.' !in a
    ensures WildcardBody(a) == a
  {
    if a != [] {
      PlainTextIsLiteral(a[1..]);
    }
  }

  lemma LabelThenDot(part: string, rest: string)
    requires '*' !in part && '.' !in part
    ensures WildcardBody(part + ("." + rest)) == part + ("\\." + WildcardBody(rest))
  {
    WildcardBodyAppends(part, "." + rest);
    PlainTextIsLiteral(part);
    WildcardBodyAppends(".", rest);
    OneDotOneStar();
  }

  /** Dots are taken literally, a star stands for one or more characters. */
  lemma WildcardDomain(a: string, b: string)
    requires '*' !in a && '.' !in a && '*' !in b && '.' !in b
    ensures WildcardPattern("*" + ("." + (a + ("." + b)))) == "^" + (".+" + ("\\." + (a + ("\\." + b)))) + "$"
  {
    LabelThenDot(a, b);
    PlainTextIsLiteral(b);
    OneDotOneStar();
    WildcardBodyAppends(".", a + ("." + b));
    WildcardBodyAppends("*", "." + (a + ("." + b)));
  }

  lemma OneDotOneStar()
    ensures WildcardBody(".") == "\\." && WildcardBody("*") == ".+"
  {
    assert "."[1..] == "" && "*"[1..] == "";
  }

  lemma {:induction false} HeaderPatternIsLast(e: Engine, values: seq<string>, v: string)
    ensures var p := HeaderPattern(e, values);
            p.Some? && e.isMatch(p.value, v) <==> LastPatternMatches(e, values, v)
  {
    if values != [] {
      var front, last := values[..|values| - 1], values[|values| - 1];
      HeaderPatternIsLast(e, front, v);
      if IsPattern(last) {
        assert NoPatternAfter(values, |values| - 1);
      } else {
        SamePatterns(e, values, front, v);
      }
    }
  }

  lemma SamePatterns(e: Engine, values: seq<string>, front: seq<string>, v: string)
    requires values != [] && front == values[..|values| - 1] && !IsPattern(values[|values| - 1])
    ensures LastPatternMatches(e, values, v) <==> LastPatternMatches(e, front, v)
  {
    forall i: nat | i < |front|
      ensures NoPatternAfter(values, i) <==> NoPatternAfter(front, i)
    {
      assert forall k :: 0 <= k < |front| ==> front[k] == values[k];
    }
    if LastPatternMatches(e, front, v) {
      var i :| 0 <= i < |front| && "~*" <= front[i] && NoPatternAfter(front, i)
               && e.compiles(front[i][2..]) && e.isMatch(front[i][2..], v);
      assert values[i] == front[i] && NoPatternAfter(values, i);
    }
  }

  lemma PlainValuesFit(e: Engine, values: seq<string>, v: string)
    ensures v in HeaderValues(e, values) <==> PlainValueIs(e, values, v)
  {
    if v in HeaderValues(e, values) {
      var w :| w in values && !IsPattern(w) && e.lower(w) == v;
      var i :| 0 <= i < |values| && values[i] == w;
    }
    if PlainValueIs(e, values, v) {
      var i :| 0 <= i < |values| && !("~*" <= values[i]) && e.lower(values[i]) == v;
      assert values[i] in values && !IsPattern(values[i]);
    }
  }

  lemma HeadersFit(e: Engine, header: (string, seq<string>), headers: map<string, string>)
    ensures MatchHeader(e, MatcherOf(e, header), headers) <==> HeaderFits(e, header.0, header.1, headers)
  {
    if e.lower(header.0) in headers {
      var v := e.lower(headers[e.lower(header.0)]);
      HeaderPatternIsLast(e, header.1, v);
      PlainValuesFit(e, header.1, v);
    }
  }

  lemma ProtocolsFit(r: Route, scheme: string)
    ensures MatchProtocol(r, scheme) <==> ProtocolFits(r.protocols, scheme)
  {
    if ProtocolFits(r.protocols, scheme) && r.protocols != [] {
      var name := if scheme in r.protocols then scheme
                  else if scheme == "http" then (if "grpc" in r.protocols then "grpc" else "ws")
                  else if "grpcs" in r.protocols then "grpcs" else "wss";
      var i :| 0 <= i < |r.protocols| && r.protocols[i] == name;
      assert SchemeMatches(r.protocols[i], scheme);
    }
  }

  lemma AnyMatchOneMore(e: Engine, patterns: seq<string>, p: string, text: string)
    ensures AnyMatch(e, patterns + [p], text) <==> AnyMatch(e, patterns, text) || e.isMatch(p, text)
  {
    var more := patterns + [p];
    assert more[|patterns|] == p && forall i :: 0 <= i < |patterns| ==> more[i] == patterns[i];
  }

  lemma AnyPrefixOneMore(paths: seq<string>, p: string, uri: string)
    ensures AnyPrefix(paths + [p], uri) <==> AnyPrefix(paths, uri) || PrefixMatches(p, uri)
  {
    var more := paths + [p];
    assert more[|paths|] == p && forall i :: 0 <= i < |paths| ==> more[i] == paths[i];
  }

  lemma AnyHostOneMore(e: Engine, hosts: seq<string>, h: string, req: string)
    ensures AnyHostFits(e, hosts + [h], req) <==> AnyHostFits(e, hosts, req) || HostFits(e, h, req)
  {
    var more := hosts + [h];
    assert more[|hosts|] == h && forall i :: 0 <= i < |hosts| ==> more[i] == hosts[i];
  }

  lemma AnyPathOneMore(e: Engine, paths: seq<string>, p: string, uri: string)
    ensures AnyPathFits(e, paths + [p], uri) <==> AnyPathFits(e, paths, uri) || PathFits(e, p, uri)
  {
    var more := paths + [p];
    assert more[|paths|] == p && forall i :: 0 <= i < |paths| ==> more[i] == paths[i];
  }

  lemma {:induction false} HostsFit(e: Engine, hosts: seq<string>, req: string)
    ensures AnyHostFits(e, hosts, req) <==>
              || req in PlainHosts(e, hosts) || HostNoPort(req) in PlainHosts(e, hosts)
              || AnyMatch(e, WildcardHosts(e, hosts), req) || AnyMatch(e, WildcardHosts(e, hosts), HostNoPort(req))
  {
    if hosts != [] {
      var front, h := hosts[..|hosts| - 1], hosts[|hosts| - 1];
      HostsFit(e, front, req);
      assert hosts == front + [h];
      AnyHostOneMore(e, front, h, req);
      var pattern := WildcardPattern(e.lower(h));
      AnyMatchOneMore(e, WildcardHosts(e, front), pattern, req);
      AnyMatchOneMore(e, WildcardHosts(e, front), pattern, HostNoPort(req));
    }
  }

  lemma {:induction false} PathsFit(e: Engine, paths: seq<string>, uri: string)
    ensures AnyPathFits(e, paths, uri) <==> AnyMatch(e, RegexPaths(e, paths), uri) || AnyPrefix(PrefixPaths(paths), uri)
  {
    if paths != [] {
      var front, p := paths[..|paths| - 1], paths[|paths| - 1];
      PathsFit(e, front, uri);
      assert paths == front + [p];
      AnyPathOneMore(e, front, p, uri);
      if IsRegexPath(p) {
        AnyMatchOneMore(e, RegexPaths(e, front), p[1..], uri);
      } else {
        AnyPrefixOneMore(PrefixPaths(front), p, uri);
      }
    }
  }

  lemma AnyPrefixOf(paths: seq<string>, others: seq<string>, uri: string)
    requires forall p :: p in paths ==> p in others
    requires AnyPrefix(paths, uri)
    ensures AnyPrefix(others, uri)
  {
    var i :| 0 <= i < |paths| && PrefixMatches(paths[i], uri);
    assert paths[i] in others;
    var j :| 0 <= j < |others| && others[j] == paths[i];
  }

  lemma SortedPathsFit(paths: seq<string>, uri: string)
    ensures AnyPrefix(paths, uri) <==> AnyPrefix(Sort(LongerFirst, paths), uri)
  {
    var sorted := Sort(LongerFirst, paths);
    SortKeeps(LongerFirst, paths);
    if AnyPrefix(paths, uri) {
      AnyPrefixOf(paths, sorted, uri);
    }
    if AnyPrefix(sorted, uri) {
      AnyPrefixOf(sorted, paths, uri);
    }
  }

  lemma RuleBits(r: Route)
    ensures Has(Rules(r), MATCH_HOST) <==> r.hosts != []
    ensures Has(Rules(r), MATCH_HEADER) <==> r.headers != []
    ensures Has(Rules(r), MATCH_URI) <==> r.paths != []
    ensures Has(Rules(r), MATCH_METHOD) <==> r.methods != []
    ensures Has(Rules(r), MATCH_SNI) <==> r.snis != []
  {
  }

  lemma AllHeadersFitIs(e: Engine, required: seq<(string, seq<string>)>, headers: map<string, string>)
    ensures MatchHeaders(e, Map(MatcherBy(e), required), headers) <==> AllHeadersFit(e, required, headers)
  {
    forall i | 0 <= i < |required|
      ensures MatchHeader(e, Map(MatcherBy(e), required)[i], headers) <==> HeaderFits(e, required[i].0, required[i].1, headers)
    {
      HeadersFit(e, required[i], headers);
    }
  }

  lemma MethodsFit(e: Engine, methods: seq<string>, m: string)
    ensures e.upper(m) in Uppers(e, methods) <==> AnyMethodFits(e, methods, m)
  {
  }

  lemma SnisFit(snis: seq<string>, sni: string)
    ensures sni in Trimmed(snis) <==> AnySniFits(snis, sni)
  {
  }

  lemma HostCriterion(e: Engine, p: Processed, r: Route, host: string)
    requires p.plainHosts == PlainHosts(e, r.hosts) && p.wildcardHosts == WildcardHosts(e, r.hosts)
    ensures MatchHost(e, p, host) <==> AnyHostFits(e, r.hosts, host)
  {
    HostsFit(e, r.hosts, host);
  }

  lemma PathCriterion(e: Engine, p: Processed, r: Route, uri: string)
    requires p.prefixPaths == Sort(LongerFirst, PrefixPaths(r.paths)) && p.regexPaths == RegexPaths(e, r.paths)
    ensures MatchUri(e, p, uri) <==> AnyPathFits(e, r.paths, uri)
  {
    PathsFit(e, r.paths, uri);
    SortedPathsFit(PrefixPaths(r.paths), uri);
  }

  /** The bitmask test on the preprocessed route decides exactly whether the route fits. */
  lemma MatchIsFit(e: Engine, req: Request, r: Route)
    ensures MatchRoute(e, req, Process(e, r)) <==> Fits(e, req, r)
  {
    RuleBits(r);
    var p := Process(e, r);
    HostCriterion(e, p, r, e.lower(req.host));
    PathCriterion(e, p, r, req.uri);
    AllHeadersFitIs(e, r.headers, req.headers);
    MethodsFit(e, r.methods, req.method_);
    if req.sni.Some? {
      SnisFit(r.snis, req.sni.value);
    }
    ProtocolsFit(r, req.scheme);
  }

  /** How many of the rule bits are set. */
  function CountBits(rules: nat): nat {
    If(Has(rules, MATCH_HOST), 1) + If(Has(rules, MATCH_HEADER), 1) + If(Has(rules, MATCH_URI), 1)
    + If(Has(rules, MATCH_METHOD), 1) + If(Has(rules, MATCH_SNI), 1)
  }

  /** match_weight is the number of bits of match_rules. */
  lemma WeightCountsBits(r: Route)
    ensures Weight(r) == CountBits(Rules(r))
  {
    RuleBits(r);
  }

  lemma RulesDetermineWeight(a: Route, b: Route)
    requires Rules(a) == Rules(b)
    ensures Weight(a) == Weight(b)
  {
    WeightCountsBits(a);
    WeightCountsBits(b);
  }

  // ---------------------------------------------------------------- the order of routes

  /** sort_routes: Less or Equal. */
  predicate SortsBefore(a: Processed, b: Processed) {
    if a.submatch != b.submatch then a.submatch > b.submatch
    else if |a.headers| != |b.headers| then |a.headers| > |b.headers|
    else if Has(a.submatch, SUB_HAS_REGEX_URI) && a.route.regexPriority != b.route.regexPriority then
      a.route.regexPriority > b.route.regexPriority
    else if a.maxUriLength != b.maxUriLength then a.maxUriLength > b.maxUriLength
    else a.route.createdAt <= b.route.createdAt
  }

  /** More criteria first, then the larger bitmask, then sort_routes. */
  predicate Precedes(a: Processed, b: Processed) {
    if a.matchWeight != b.matchWeight then a.matchWeight > b.matchWeight
    else if a.rules != b.rules then a.rules > b.rules
    else SortsBefore(a, b)
  }

  // The same order on the configured fields, written out.

  function CriteriaGiven(r: Route): nat {
    OneIf(|r.hosts| > 0) + OneIf(|r.headers| > 0) + OneIf(|r.paths| > 0) + OneIf(|r.methods| > 0) + OneIf(|r.snis| > 0)
  }

  ghost predicate AllHostsPlain(e: Engine, hosts: seq<string>) {
    |hosts| > 0 && forall i :: 0 <= i < |hosts| ==> '*' !in e.lower(hosts[i])
  }

  ghost predicate HasExpression(paths: seq<string>) {
    exists i :: 0 <= i < |paths| && "~" <= paths[i]
  }

  /** Some plain path of one list is longer than every plain path of the other. */
  ghost predicate HasLongerPath(paths: seq<string>, others: seq<string>) {
    exists i :: 0 <= i < |paths| && !("~" <= paths[i]) && LongerThanAll(|paths[i]|, others)
  }

  ghost predicate LongerThanAll(n: nat, others: seq<string>) {
    n > 0 && forall j :: 0 <= j < |others| && !("~" <= others[j]) ==> |others[j]| < n
  }

  /** The order in which routes are tried, key by key: more criteria; hosts; headers; paths;
      methods; SNIs; then the finer keys. */
  ghost predicate ComesNoLater(e: Engine, a: Route, b: Route) {
    if CriteriaGiven(a) != CriteriaGiven(b) then CriteriaGiven(a) > CriteriaGiven(b)
    else if (|a.hosts| > 0) != (|b.hosts| > 0) then |a.hosts| > 0
    else if (|a.headers| > 0) != (|b.headers| > 0) then |a.headers| > 0
    else if (|a.paths| > 0) != (|b.paths| > 0) then |a.paths| > 0
    else if (|a.methods| > 0) != (|b.methods| > 0) then |a.methods| > 0
    else if (|a.snis| > 0) != (|b.snis| > 0) then |a.snis| > 0
    else ComesNoLaterAmongAlike(e, a, b)
  }

  /** Routes with the same kinds of criteria: plain hosts only; an expression among the paths;
      more headers; the higher regex priority if there is an expression; the longer plain path;
      the older route. */
  ghost predicate ComesNoLaterAmongAlike(e: Engine, a: Route, b: Route) {
    if AllHostsPlain(e, a.hosts) != AllHostsPlain(e, b.hosts) then AllHostsPlain(e, a.hosts)
    else if HasExpression(a.paths) != HasExpression(b.paths) then HasExpression(a.paths)
    else if |a.headers| != |b.headers| then |a.headers| > |b.headers|
    else if HasExpression(a.paths) && a.regexPriority != b.regexPriority then a.regexPriority > b.regexPriority
    else if HasLongerPath(a.paths, b.paths) then true
    else if HasLongerPath(b.paths, a.paths) then false
    else a.createdAt <= b.createdAt
  }

  lemma {:induction false} LongestBounds(paths: seq<string>, n: nat)
    ensures LongerThanAll(n, paths) <==> LongestLength(paths) < n
  {
    if paths != [] {
      var front, p := paths[..|paths| - 1], paths[|paths| - 1];
      LongestBounds(front, n);
      assert forall j :: 0 <= j < |front| ==> front[j] == paths[j];
      assert LongerThanAll(n, paths) <==> LongerThanAll(n, front) && ("~" <= p || |p| < n);
    }
  }

  lemma {:induction false} LongestIsThere(paths: seq<string>) returns (i: nat)
    requires LongestLength(paths) > 0
    ensures i < |paths| && !("~" <= paths[i]) && |paths[i]| == LongestLength(paths)
  {
    var front, p := paths[..|paths| - 1], paths[|paths| - 1];
    if !IsRegexPath(p) && |p| > LongestLength(front) {
      i := |front|;
    } else {
      i := LongestIsThere(front);
      assert front[i] == paths[i];
    }
  }

  lemma {:induction false} LongestIsLeast(paths: seq<string>, i: nat)
    requires i < |paths| && !("~" <= paths[i])
    ensures |paths[i]| <= LongestLength(paths)
  {
    LongestBounds(paths, LongestLength(paths) + 1);
    assert LongerThanAll(LongestLength(paths) + 1, paths);
  }

  lemma LongerPathIs(paths: seq<string>, others: seq<string>)
    ensures HasLongerPath(paths, others) <==> LongestLength(paths) > LongestLength(others)
  {
    if LongestLength(paths) > LongestLength(others) {
      var i := LongestIsThere(paths);
      LongestBounds(others, |paths[i]|);
    }
    if HasLongerPath(paths, others) {
      var i :| 0 <= i < |paths| && !("~" <= paths[i]) && LongerThanAll(|paths[i]|, others);
      LongestBounds(others, |paths[i]|);
      LongestIsLeast(paths, i);
    }
  }

  lemma AllPlainIs(e: Engine, hosts: seq<string>)
    ensures AllHostsPlain(e, hosts) <==> PlainOnly(e, hosts) && PlainHosts(e, hosts) != []
  {
    if hosts != [] {
      assert PlainOnly(e, hosts) ==> !HasWildcard(e.lower(hosts[|hosts| - 1]));
    }
  }

  lemma HasExpressionIs(paths: seq<string>)
    ensures HasExpression(paths) <==> AnyRegex(paths)
  {
    assert forall i :: 0 <= i < |paths| ==> (IsRegexPath(paths[i]) <==> "~" <= paths[i]);
  }

  lemma SubmatchIs(e: Engine, r: Route)
    ensures Submatch(e, r) == OneIf(HasExpression(r.paths)) + 2 * OneIf(AllHostsPlain(e, r.hosts))
    ensures Has(Submatch(e, r), SUB_HAS_REGEX_URI) <==> HasExpression(r.paths)
  {
    AllPlainIs(e, r.hosts);
    HasExpressionIs(r.paths);
  }

  lemma SortsBeforeIsOrder(e: Engine, a: Route, b: Route)
    ensures SortsBefore(Process(e, a), Process(e, b)) <==> ComesNoLaterAmongAlike(e, a, b)
  {
    SubmatchIs(e, a);
    SubmatchIs(e, b);
    LongerPathIs(a.paths, b.paths);
    LongerPathIs(b.paths, a.paths);
  }

  /** The bitmasks and lengths of the preprocessed routes order them by the written-out keys. */
  lemma PrecedesIsOrder(e: Engine, a: Route, b: Route)
    ensures Precedes(Process(e, a), Process(e, b)) <==> ComesNoLater(e, a, b)
  {
    SortsBeforeIsOrder(e, a, b);
    RulesCompare(a, b);
    assert Weight(a) == CriteriaGiven(a) && Weight(b) == CriteriaGiven(b);
  }

  /** The larger bitmask has the first criterion the two routes differ in. */
  lemma RulesCompare(a: Route, b: Route)
    ensures Rules(a) > Rules(b) <==>
      if (|a.hosts| > 0) != (|b.hosts| > 0) then |a.hosts| > 0
      else if (|a.headers| > 0) != (|b.headers| > 0) then |a.headers| > 0
      else if (|a.paths| > 0) != (|b.paths| > 0) then |a.paths| > 0
      else if (|a.methods| > 0) != (|b.methods| > 0) then |a.methods| > 0
      else |a.snis| > 0 && |b.snis| == 0
    ensures Rules(a) == Rules(b) <==>
      && (|a.hosts| > 0 <==> |b.hosts| > 0) && (|a.headers| > 0 <==> |b.headers| > 0) && (|a.paths| > 0 <==> |b.paths| > 0)
      && (|a.methods| > 0 <==> |b.methods| > 0) && (|a.snis| > 0 <==> |b.snis| > 0)
  {
  }

  lemma SortsBeforeOrders()
    ensures TotalPreorder(SortsBefore)
  {
  }

  lemma PrecedesOrders()
    ensures TotalPreorder(Precedes)
  {
    SortsBeforeOrders();
    forall a, b, c
      ensures Chained(Precedes, a, b, c) && Comparable(Precedes, a, b)
    {
      Chain(SortsBefore, a, b, c);
    }
  }

  /** The better of the best so far and the next route. */
  function Take(m: Processed -> bool, best: Option<Processed>, x: Processed): Option<Processed> {
    if m(x) && (best.None? || !Precedes(best.value, x)) then Some(x) else best
  }

  lemma FirstMinOneMore(m: Processed -> bool, s: seq<Processed>, x: Processed)
    ensures FirstMin(Precedes, m, s + [x]) == Take(m, FirstMin(Precedes, m, s), x)
  {
    assert (s + [x])[..|s|] == s;
  }

  /** Routes that sort_routes tells apart may be taken in either order. */
  lemma TakeSwaps(m: Processed -> bool, best: Option<Processed>, x: Processed, y: Processed)
    requires !SortsBefore(y, x)
    ensures Take(m, Take(m, best, x), y) == Take(m, Take(m, best, y), x)
  {
    assert !(Precedes(x, y) && Precedes(y, x));
    PrecedesOrders();
    Chain(Precedes, x, y, x);
    if best.Some? {
      var b := best.value;
      Chain(Precedes, b, x, y);
      Chain(Precedes, b, y, x);
      Chain(Precedes, x, y, b);
      Chain(Precedes, y, x, b);
      Chain(Precedes, x, b, y);
      Chain(Precedes, y, b, x);
    }
  }

  /** Sorting by the finer keys first does not change which route is earliest best. */
  lemma {:induction false} InsertKeepsFirst(m: Processed -> bool, s: seq<Processed>, x: Processed)
    ensures FirstMin(Precedes, m, Insert(SortsBefore, s, x)) == FirstMin(Precedes, m, s + [x])
  {
    if s != [] && !SortsBefore(s[|s| - 1], x) {
      var t, y := s[..|s| - 1], s[|s| - 1];
      InsertKeepsFirst(m, t, x);
      assert s == t + [y];
      FirstMinOneMore(m, Insert(SortsBefore, t, x), y);
      FirstMinOneMore(m, t, x);
      FirstMinOneMore(m, t, y);
      FirstMinOneMore(m, s, x);
      TakeSwaps(m, FirstMin(Precedes, m, t), x, y);
    }
  }

  lemma {:induction false} SortKeepsFirst(m: Processed -> bool, s: seq<Processed>)
    ensures FirstMin(Precedes, m, Sort(SortsBefore, s)) == FirstMin(Precedes, m, s)
  {
    if s != [] {
      var t, x := s[..|s| - 1], s[|s| - 1];
      SortKeepsFirst(m, t);
      InsertKeepsFirst(m, Sort(SortsBefore, t), x);
      assert (Sort(SortsBefore, t) + [x])[..|t|] == Sort(SortsBefore, t);
    }
  }

  // ---------------------------------------------------------------- categories

  datatype Category = Category(rules: nat, matchWeight: nat, routes: seq<nat>)

  predicate CategoryFirst(a: Category, b: Category) {
    a.matchWeight > b.matchWeight || (a.matchWeight == b.matchWeight && a.rules >= b.rules)
  }

  function IndicesOf(routes: seq<Processed>, rules: nat, n: nat): seq<nat>
    requires n <= |routes|
  {
    if n == 0 then []
    else if routes[n - 1].rules == rules then IndicesOf(routes, rules, n - 1) + [n - 1]
    else IndicesOf(routes, rules, n - 1)
  }

  /** The indices of the routes with the given bitmask, ascending. */
  ghost predicate AreIndicesOf(routes: seq<Processed>, rules: nat, n: nat, r: seq<nat>) {
    && n <= |routes|
    && (forall k :: 0 <= k < |r| ==> r[k] < n && routes[r[k]].rules == rules)
    && (forall k, l :: 0 <= k < l < |r| ==> r[k] < r[l])
    && (forall i :: 0 <= i < n && routes[i].rules == rules ==> i in r)
  }

  lemma {:induction false} IndicesAre(routes: seq<Processed>, rules: nat, n: nat)
    requires n <= |routes|
    ensures AreIndicesOf(routes, rules, n, IndicesOf(routes, rules, n))
  {
    if n > 0 {
      IndicesAre(routes, rules, n - 1);
      OneMoreIndex(routes, rules, n - 1, IndicesOf(routes, rules, n - 1), n, IndicesOf(routes, rules, n));
    }
  }

  lemma OneMoreIndex(routes: seq<Processed>, rules: nat, n: nat, r: seq<nat>, m: nat, more: seq<nat>)
    requires n < |routes| && m == n + 1 && AreIndicesOf(routes, rules, n, r)
    requires more == if routes[n].rules == rules then r + [n] else r
    ensures AreIndicesOf(routes, rules, m, more)
  {
    forall i | 0 <= i < m && routes[i].rules == rules
      ensures i in more
    {
      assert i < n ==> i in r;
    }
  }

  ghost predicate CategoryOk(routes: seq<Processed>, c: Category) {
    && AreIndicesOf(routes, c.rules, |routes|, c.routes) && c.routes != []
    && c.matchWeight == routes[c.routes[0]].matchWeight
  }

  ghost predicate EachOk(routes: seq<Processed>, cs: seq<Category>) {
    forall k :: 0 <= k < |cs| ==> CategoryOk(routes, cs[k])
  }

  /** One category per bitmask in use, best first. */
  ghost predicate CategoriesOk(routes: seq<Processed>, cs: seq<Category>) {
    && Sorted(CategoryFirst, cs) && EachOk(routes, cs)
    && (forall i :: 0 <= i < |routes| ==> Covered(cs, routes[i].rules))
  }

  ghost predicate Covered(cs: seq<Category>, rules: nat) {
    exists k :: 0 <= k < |cs| && cs[k].rules == rules
  }

  /** Routes with the same bitmask have the same weight, as preprocessing guarantees. */
  ghost predicate WeightsFollowRules(routes: seq<Processed>) {
    forall i, j :: 0 <= i < |routes| && 0 <= j < |routes| && routes[i].rules == routes[j].rules ==>
      routes[i].matchWeight == routes[j].matchWeight
  }

  lemma CategoryFirstOrders()
    ensures TotalPreorder(CategoryFirst)
  {
  }

  ghost predicate Grouped(routes: seq<Processed>, n: nat, groups: map<nat, seq<nat>>)
    requires n <= |routes|
  {
    forall r :: (if r in groups then groups[r] else []) == IndicesOf(routes, r, n) && (r in groups ==> groups[r] != [])
  }

  method GroupByRules(routes: seq<Processed>) returns (groups: map<nat, seq<nat>>)
    ensures Grouped(routes, |routes|, groups)
  {
    groups := map[];
    for i := 0 to |routes|
      invariant Grouped(routes, i, groups)
    {
      var r := routes[i].rules;
      groups := groups[r := (if r in groups then groups[r] else []) + [i]];
    }
  }

  ghost predicate CoversAll(cs: seq<Category>, rules: set<nat>) {
    forall r :: r in rules ==> Covered(cs, r)
  }

  lemma OneMoreCategory(routes: seq<Processed>, cs: seq<Category>, c: Category, rules: set<nat>)
    requires EachOk(routes, cs) && CategoryOk(routes, c) && CoversAll(cs, rules)
    ensures EachOk(routes, cs + [c]) && CoversAll(cs + [c], rules + {c.rules})
  {
    var more := cs + [c];
    assert more[|cs|] == c;
    forall k | 0 <= k < |more|
      ensures CategoryOk(routes, more[k])
    {
      assert k < |cs| ==> more[k] == cs[k];
    }
    forall r | r in rules
      ensures Covered(more, r)
    {
      var k :| 0 <= k < |cs| && cs[k].rules == r;
      assert more[k] == cs[k];
    }
  }

  lemma GroupIsOk(routes: seq<Processed>, groups: map<nat, seq<nat>>, rules: nat)
    requires Grouped(routes, |routes|, groups) && rules in groups
    ensures groups[rules] != [] && groups[rules][0] < |routes|
    ensures CategoryOk(routes, Category(rules, routes[groups[rules][0]].matchWeight, groups[rules]))
  {
    assert groups[rules] == IndicesOf(routes, rules, |routes|);
    IndicesAre(routes, rules, |routes|);
  }

  method CollectCategories(routes: seq<Processed>, groups: map<nat, seq<nat>>) returns (cs: seq<Category>)
    requires Grouped(routes, |routes|, groups)
    ensures EachOk(routes, cs)
    ensures CoversAll(cs, groups.Keys)
  {
    cs := [];
    var left := groups.Keys;
    ghost var taken := {};
    while left != {}
      invariant left + taken == groups.Keys && EachOk(routes, cs) && CoversAll(cs, taken)
      decreases left
    {
      var rules :| rules in left;
      GroupIsOk(routes, groups, rules);
      var c := Category(rules, routes[groups[rules][0]].matchWeight, groups[rules]);
      OneMoreCategory(routes, cs, c, taken);
      cs := cs + [c];
      left, taken := left - {rules}, taken + {rules};
    }
    assert taken == groups.Keys;
  }

  /** The hash map's iteration order is arbitrary; sorting by weight and bitmask undoes it. */
  method BuildCategories(routes: seq<Processed>) returns (cs: seq<Category>)
    ensures CategoriesOk(routes, cs)
  {
    var groups := GroupByRules(routes);
    cs := CollectCategories(routes, groups);
    forall i | 0 <= i < |routes|
      ensures routes[i].rules in groups.Keys
    {
      IndicesAre(routes, routes[i].rules, |routes|);
      assert i in IndicesOf(routes, routes[i].rules, |routes|);
    }
    SortedCategoriesOk(routes, cs, groups.Keys);
    cs := Sort(CategoryFirst, cs);
  }

  lemma SortKeepsOk(routes: seq<Processed>, cs: seq<Category>, sorted: seq<Category>)
    requires EachOk(routes, cs) && forall c :: c in sorted ==> c in cs
    ensures EachOk(routes, sorted)
  {
    forall k | 0 <= k < |sorted|
      ensures CategoryOk(routes, sorted[k])
    {
      assert sorted[k] in cs;
      var l :| 0 <= l < |cs| && cs[l] == sorted[k];
    }
  }

  lemma SortKeepsCovered(cs: seq<Category>, sorted: seq<Category>, rules: nat)
    requires Covered(cs, rules) && forall c :: c in cs ==> c in sorted
    ensures Covered(sorted, rules)
  {
    var l :| 0 <= l < |cs| && cs[l].rules == rules;
    assert cs[l] in sorted;
    var k :| 0 <= k < |sorted| && sorted[k] == cs[l];
  }

  lemma SortedCategoriesOk(routes: seq<Processed>, cs: seq<Category>, rules: set<nat>)
    requires EachOk(routes, cs)
    requires CoversAll(cs, rules)
    requires forall i :: 0 <= i < |routes| ==> routes[i].rules in rules
    ensures CategoriesOk(routes, Sort(CategoryFirst, cs))
  {
    var sorted := Sort(CategoryFirst, cs);
    CategoryFirstOrders();
    SortSorts(CategoryFirst, cs);
    SortKeeps(CategoryFirst, cs);
    SortKeepsOk(routes, cs, sorted);
    forall i | 0 <= i < |routes|
      ensures Covered(sorted, routes[i].rules)
    {
      SortKeepsCovered(cs, sorted, routes[i].rules);
    }
  }

  // ---------------------------------------------------------------- finding the route

  /** The first match within one category. */
  method ScanCategory(e: Engine, req: Request, routes: seq<Processed>, c: Category) returns (r: Option<nat>)
    requires CategoryOk(routes, c)
    ensures r.Some? ==> HitIn(e, req, routes, c, r.value)
    ensures r.None? ==> Quiet(e, req, routes, c)
  {
    for k := 0 to |c.routes|
      invariant forall l :: 0 <= l < k ==> !MatchRoute(e, req, routes[c.routes[l]])
    {
      var i := c.routes[k];
      if MatchRoute(e, req, routes[i]) {
        forall j | 0 <= j < i && routes[j].rules == c.rules
          ensures !MatchRoute(e, req, routes[j])
        {
          assert j in c.routes;
          var l :| 0 <= l < |c.routes| && c.routes[l] == j;
          assert l < k;
        }
        return Some(i);
      }
    }
    return None;
  }

  ghost predicate HitIn(e: Engine, req: Request, routes: seq<Processed>, c: Category, i: nat) {
    && i < |routes| && routes[i].rules == c.rules && MatchRoute(e, req, routes[i])
    && (forall j :: 0 <= j < i && routes[j].rules == c.rules ==> !MatchRoute(e, req, routes[j]))
  }

  /** The first match in category order, as an index into the sorted routes. */
  method FindRouteUncached(e: Engine, req: Request, routes: seq<Processed>, cs: seq<Category>) returns (r: Option<nat>)
    requires CategoriesOk(routes, cs) && WeightsFollowRules(routes) && Sorted(SortsBefore, routes)
    ensures r.Some? ==> FirstBest(Precedes, Matching(e, req), routes, r.value)
    ensures r.None? ==> forall i :: 0 <= i < |routes| ==> !MatchRoute(e, req, routes[i])
  {
    for c := 0 to |cs|
      invariant forall d :: 0 <= d < c ==> Quiet(e, req, routes, cs[d])
    {
      r := ScanCategory(e, req, routes, cs[c]);
      if r.Some? {
        assert FirstHit(e, req, routes, cs, c, r.value);
        FirstHitIsBest(e, req, routes, cs, c, r.value);
        return;
      }
    }
    AllQuiet(e, req, routes, cs);
    return None;
  }

  lemma AllQuiet(e: Engine, req: Request, routes: seq<Processed>, cs: seq<Category>)
    requires CategoriesOk(routes, cs) && forall d :: 0 <= d < |cs| ==> Quiet(e, req, routes, cs[d])
    ensures forall i :: 0 <= i < |routes| ==> !MatchRoute(e, req, routes[i])
  {
    forall i | 0 <= i < |routes|
      ensures !MatchRoute(e, req, routes[i])
    {
      assert Covered(cs, routes[i].rules);
      var c :| 0 <= c < |cs| && cs[c].rules == routes[i].rules;
      QuietCovers(e, req, routes, cs[c], i);
    }
  }

  /** No route of the category matches. */
  ghost predicate Quiet(e: Engine, req: Request, routes: seq<Processed>, c: Category)
    requires CategoryOk(routes, c)
  {
    forall k :: 0 <= k < |c.routes| ==> !MatchRoute(e, req, routes[c.routes[k]])
  }

  lemma QuietCovers(e: Engine, req: Request, routes: seq<Processed>, c: Category, i: nat)
    requires CategoryOk(routes, c) && Quiet(e, req, routes, c) && i < |routes| && routes[i].rules == c.rules
    ensures !MatchRoute(e, req, routes[i])
  {
    assert i in c.routes;
    var k :| 0 <= k < |c.routes| && c.routes[k] == i;
  }

  ghost predicate FirstHit(e: Engine, req: Request, routes: seq<Processed>, cs: seq<Category>, c: nat, i: nat)
    requires CategoriesOk(routes, cs)
  {
    c < |cs| && HitIn(e, req, routes, cs[c], i) && forall d :: 0 <= d < c ==> Quiet(e, req, routes, cs[d])
  }

  lemma CategoryWeight(routes: seq<Processed>, c: Category, i: nat)
    requires CategoryOk(routes, c) && WeightsFollowRules(routes) && i < |routes| && routes[i].rules == c.rules
    ensures routes[i].matchWeight == c.matchWeight
  {
  }

  /** The first hit is the earliest best match among the sorted routes. */
  lemma FirstHitIsBest(e: Engine, req: Request, routes: seq<Processed>, cs: seq<Category>, c: nat, i: nat)
    requires CategoriesOk(routes, cs) && WeightsFollowRules(routes) && Sorted(SortsBefore, routes)
    requires FirstHit(e, req, routes, cs, c, i)
    ensures FirstBest(Precedes, Matching(e, req), routes, i)
  {
    CategoryWeight(routes, cs[c], i);
    SortsBeforeOrders();
    forall j | 0 <= j < |routes| && Matching(e, req)(routes[j])
      ensures Precedes(routes[i], routes[j]) && (j < i ==> !Precedes(routes[j], routes[i]))
    {
      assert Covered(cs, routes[j].rules);
      var d :| 0 <= d < |cs| && cs[d].rules == routes[j].rules;
      CategoryWeight(routes, cs[d], j);
      if d < c {
        assert Quiet(e, req, routes, cs[d]);
        QuietCovers(e, req, routes, cs[d], j);
      }
      assert c < d ==> CategoryFirst(cs[c], cs[d]);
      if i < j {
        assert SortsBefore(routes[i], routes[j]);
      }
      Chain(SortsBefore, routes[i], routes[i], routes[i]);
    }
  }

  // ---------------------------------------------------------------- the router

  predicate IsHttpRoute(r: Route) {
    AnyHttp(r.protocols)
  }

  function ProcessAll(e: Engine, routes: seq<Route>): seq<Processed> {
    if routes == [] then []
    else
      var front, r := ProcessAll(e, routes[..|routes| - 1]), routes[|routes| - 1];
      if IsHttpRoute(r) then front + [Process(e, r)] else front
  }

  lemma {:induction false} ProcessedOrigin(e: Engine, routes: seq<Route>, i: nat)
    requires i < |ProcessAll(e, routes)|
    ensures var p := ProcessAll(e, routes)[i];
            p == Process(e, p.route) && p.route in routes && IsHttpRoute(p.route)
  {
    if routes != [] {
      var front := routes[..|routes| - 1];
      if i < |ProcessAll(e, front)| {
        ProcessedOrigin(e, front, i);
        assert ProcessAll(e, routes)[i] == ProcessAll(e, front)[i];
      }
    }
  }

  lemma ProcessedWeights(e: Engine, routes: seq<Route>)
    ensures WeightsFollowRules(ProcessAll(e, routes))
  {
    var all := ProcessAll(e, routes);
    forall i, j | 0 <= i < |all| && 0 <= j < |all| && all[i].rules == all[j].rules
      ensures all[i].matchWeight == all[j].matchWeight
    {
      ProcessedOrigin(e, routes, i);
      ProcessedOrigin(e, routes, j);
      RulesDetermineWeight(all[i].route, all[j].route);
    }
  }

  lemma SortKeepsWeights(s: seq<Processed>)
    requires WeightsFollowRules(s)
    ensures WeightsFollowRules(Sort(SortsBefore, s))
  {
    var t := Sort(SortsBefore, s);
    SortKeeps(SortsBefore, s);
    forall i, j | 0 <= i < |t| && 0 <= j < |t| && t[i].rules == t[j].rules
      ensures t[i].matchWeight == t[j].matchWeight
    {
      assert t[i] in t && t[j] in t;
      var k :| 0 <= k < |s| && s[k] == t[i];
      var l :| 0 <= l < |s| && s[l] == t[j];
    }
  }

  function Matching(e: Engine, req: Request): Processed -> bool {
    (p: Processed) => MatchRoute(e, req, p)
  }

  /** The router as built: preprocessed routes in sorted order, and their categories. */
  class TraditionalRouter {
    const engine: Engine
    ghost const configured: seq<Route>
    const routes: seq<Processed>
    const categories: seq<Category>

    ghost predicate Valid() {
      && routes == Sort(SortsBefore, ProcessAll(engine, configured))
      && CategoriesOk(routes, categories)
    }

    constructor (engine: Engine, configured: seq<Route>)
      ensures Valid() && this.configured == configured && this.engine == engine
    {
      var processed: seq<Processed> := [];
      for i := 0 to |configured|
        invariant processed == ProcessAll(engine, configured[..i])
      {
        assert configured[..i + 1][..i] == configured[..i];
        if IsHttpRoute(configured[i]) {
          var p := ProcessRoute(engine, configured[i]);
          processed := processed + [p];
        }
      }
      assert configured[..|configured|] == configured;
      var sorted := Sort(SortsBefore, processed);
      var cs := BuildCategories(sorted);
      this.engine, this.configured, this.routes, this.categories := engine, configured, sorted, cs;
    }

    /** Every request is routed to the earliest configured of the best fitting routes. */
    method FindRoute(req: Request) returns (r: Option<Route>)
      requires Valid()
      ensures Routed(engine, req, configured, r)
    {
      SortsBeforeOrders();
      SortSorts(SortsBefore, ProcessAll(engine, configured));
      ProcessedWeights(engine, configured);
      SortKeepsWeights(ProcessAll(engine, configured));
      var i := FindRouteUncached(engine, req, routes, categories);
      r := if i.Some? then Some(routes[i.value].route) else None;
      FindsBestRoute(engine, req, configured, routes, i);
    }
  }

  /** r is None when no HTTP route fits; otherwise it is an HTTP route that fits, that every
      other fitting HTTP route comes after or ties with, and that is configured before every
      route it ties with. */
  ghost predicate Routed(e: Engine, req: Request, configured: seq<Route>, r: Option<Route>) {
    && (r.None? ==> NoneFits(e, req, configured))
    && (r.Some? ==> exists i: nat :: BestRoute(e, req, configured, i) && r.value == configured[i])
  }

  ghost predicate BestRoute(e: Engine, req: Request, configured: seq<Route>, i: nat) {
    && i < |configured| && ServesHttp(configured[i].protocols) && Fits(e, req, configured[i])
    && forall j :: 0 <= j < |configured| && ServesHttp(configured[j].protocols) && Fits(e, req, configured[j]) ==>
         && ComesNoLater(e, configured[i], configured[j])
         && (j < i ==> !ComesNoLater(e, configured[j], configured[i]))
  }

  ghost predicate NoneFits(e: Engine, req: Request, routes: seq<Route>) {
    forall i :: 0 <= i < |routes| && ServesHttp(routes[i].protocols) ==> !Fits(e, req, routes[i])
  }

  lemma NoneRankedFits(e: Engine, req: Request, routes: seq<Route>)
    requires NoneRanked(e, req, routes)
    ensures NoneFits(e, req, routes)
  {
    forall i | 0 <= i < |routes| && ServesHttp(routes[i].protocols)
      ensures !Fits(e, req, routes[i])
    {
      AnyHttpIs(routes[i].protocols);
    }
  }

  lemma RankedIsBest(e: Engine, req: Request, configured: seq<Route>, i: nat)
    requires BestRanked(e, req, configured, i)
    ensures BestRoute(e, req, configured, i)
  {
    AnyHttpIs(configured[i].protocols);
    forall j | 0 <= j < |configured| && ServesHttp(configured[j].protocols) && Fits(e, req, configured[j])
      ensures ComesNoLater(e, configured[i], configured[j])
      ensures j < i ==> !ComesNoLater(e, configured[j], configured[i])
    {
      AnyHttpIs(configured[j].protocols);
      PrecedesIsOrder(e, configured[i], configured[j]);
      PrecedesIsOrder(e, configured[j], configured[i]);
    }
  }

  /** The earliest configured of the fitting HTTP routes that no other comes before, by the keys
      of the preprocessed routes. */
  ghost predicate BestRanked(e: Engine, req: Request, configured: seq<Route>, i: nat) {
    && i < |configured| && IsHttpRoute(configured[i]) && Fits(e, req, configured[i])
    && forall j :: 0 <= j < |configured| && IsHttpRoute(configured[j]) && Fits(e, req, configured[j]) ==>
         && Precedes(Process(e, configured[i]), Process(e, configured[j]))
         && (j < i ==> !Precedes(Process(e, configured[j]), Process(e, configured[i])))
  }

  /** Whether the last configured route takes over from the best of those before it. */
  ghost predicate TakesOver(e: Engine, req: Request, best: Option<Processed>, x: Route) {
    IsHttpRoute(x) && Fits(e, req, x) && (best.None? || !Precedes(best.value, Process(e, x)))
  }

  lemma BestOfOneMore(e: Engine, req: Request, front: seq<Route>, x: Route)
    ensures var best := FirstMin(Precedes, Matching(e, req), ProcessAll(e, front));
            FirstMin(Precedes, Matching(e, req), ProcessAll(e, front + [x]))
            == if TakesOver(e, req, best, x) then Some(Process(e, x)) else best
  {
    assert (front + [x])[..|front|] == front;
    if IsHttpRoute(x) {
      var all, px := ProcessAll(e, front), Process(e, x);
      assert (all + [px])[..|all|] == all;
      assert Matching(e, req)(px) == Fits(e, req, x) by {
        MatchIsFit(e, req, x);
      }
    }
  }

  ghost predicate NoneRanked(e: Engine, req: Request, routes: seq<Route>) {
    forall i :: 0 <= i < |routes| && IsHttpRoute(routes[i]) ==> !Fits(e, req, routes[i])
  }

  /** The earliest best among the preprocessed routes, as an index into the configured ones. */
  lemma {:induction false} FirstMinOfProcessed(e: Engine, req: Request, routes: seq<Route>) returns (i: nat)
    ensures var r := FirstMin(Precedes, Matching(e, req), ProcessAll(e, routes));
            && (r.Some? ==> BestRanked(e, req, routes, i) && r.value == Process(e, routes[i]))
            && (r.None? ==> NoneRanked(e, req, routes))
  {
    i := 0;
    if routes != [] {
      var front, x := routes[..|routes| - 1], routes[|routes| - 1];
      var k := FirstMinOfProcessed(e, req, front);
      assert routes == front + [x];
      BestOfOneMore(e, req, front, x);
      var best := FirstMin(Precedes, Matching(e, req), ProcessAll(e, front));
      if best.Some? {
        BestRouteExtends(e, req, routes, front, x, k);
      } else {
        OnlyFit(e, req, routes, front, x);
      }
      i := if TakesOver(e, req, best, x) then |front| else k;
    }
  }

  lemma OnlyFit(e: Engine, req: Request, routes: seq<Route>, front: seq<Route>, x: Route)
    requires routes == front + [x] && NoneRanked(e, req, front)
    ensures if IsHttpRoute(x) && Fits(e, req, x) then BestRanked(e, req, routes, |front|) else NoneRanked(e, req, routes)
  {
    assert forall j :: 0 <= j < |front| ==> routes[j] == front[j];
    PrecedesOrders();
    Chain(Precedes, Process(e, x), Process(e, x), Process(e, x));
  }

  lemma BestRouteExtends(e: Engine, req: Request, routes: seq<Route>, front: seq<Route>, x: Route, k: nat)
    requires routes == front + [x] && BestRanked(e, req, front, k)
    ensures BestRanked(e, req, routes,
                      if IsHttpRoute(x) && Fits(e, req, x) && !Precedes(Process(e, front[k]), Process(e, x)) then |front| else k)
  {
    var px, pk := Process(e, x), Process(e, front[k]);
    PrecedesOrders();
    Chain(Precedes, px, px, px);
    forall j | 0 <= j < |routes| && IsHttpRoute(routes[j]) && Fits(e, req, routes[j])
      ensures j < |front| ==> IsHttpRoute(front[j]) && Fits(e, req, front[j]) && Precedes(pk, Process(e, front[j]))
      ensures !Precedes(pk, px) ==> Precedes(px, Process(e, routes[j])) && (j < |front| ==> !Precedes(Process(e, routes[j]), px))
    {
      assert j < |front| ==> routes[j] == front[j];
      var pj := Process(e, routes[j]);
      Chain(Precedes, px, pk, pj);
      Chain(Precedes, pk, pj, px);
    }
  }

  lemma FindsBestRoute(e: Engine, req: Request, configured: seq<Route>, routes: seq<Processed>, i: Option<nat>)
    requires routes == Sort(SortsBefore, ProcessAll(e, configured))
    requires i.Some? ==> FirstBest(Precedes, Matching(e, req), routes, i.value)
    requires i.None? ==> forall k :: 0 <= k < |routes| ==> !MatchRoute(e, req, routes[k])
    ensures Routed(e, req, configured, if i.Some? then Some(routes[i.value].route) else None)
  {
    var m := Matching(e, req);
    PrecedesOrders();
    SortKeepsFirst(m, ProcessAll(e, configured));
    var k := FirstMinOfProcessed(e, req, configured);
    var b := FirstMinIsBest(Precedes, m, routes);
    if i.Some? {
      assert FirstBest(Precedes, m, routes, i.value);
      FirstBestIsUnique(Precedes, m, routes, i.value, b);
      RankedIsBest(e, req, configured, k);
    } else {
      NoneRankedFits(e, req, configured);
    }
  }
}
