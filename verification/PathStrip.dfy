/** Which configured path a request matched, and the upstream path left once it is stripped. */
module PathStrip {
  import opened Wrappers
  import opened Sorting
  import opened Traditional

  /** The text a regular expression matches, if it matches at all. */
  type Capture = (string, string) -> Option<string>

  ghost predicate Agrees(e: Engine, capture: Capture) {
    forall pattern, uri :: capture(pattern, uri).Some? <==> e.isMatch(pattern, uri)
  }

  ghost predicate FirstCapture(capture: Capture, patterns: seq<string>, uri: string, i: nat) {
    && i < |patterns| && capture(patterns[i], uri).Some?
    && forall j :: 0 <= j < i ==> capture(patterns[j], uri).None?
  }

  ghost predicate NoCapture(capture: Capture, patterns: seq<string>, uri: string) {
    forall i :: 0 <= i < |patterns| ==> capture(patterns[i], uri).None?
  }

  ghost predicate LongestPrefix(paths: seq<string>, uri: string, path: string) {
    && path in paths && PrefixMatches(path, uri)
    && forall i :: 0 <= i < |paths| && PrefixMatches(paths[i], uri) ==> |paths[i]| <= |path|
  }

  ghost predicate NoPrefix(paths: seq<string>, uri: string) {
    forall i :: 0 <= i < |paths| ==> !PrefixMatches(paths[i], uri)
  }

  /** The first capturing expression, or failing that the longest matching prefix. */
  ghost predicate Matched(capture: Capture, p: Processed, uri: string, r: Option<string>) {
    if NoCapture(capture, p.regexPaths, uri) then
      if r.Some? then LongestPrefix(p.prefixPaths, uri, r.value) else NoPrefix(p.prefixPaths, uri)
    else exists i: nat :: FirstCapture(capture, p.regexPaths, uri, i) && r == capture(p.regexPaths[i], uri)
  }

  method FindMatchedPath(capture: Capture, p: Processed, uri: string) returns (r: Option<string>)
    ensures Matched(capture, p, uri, r)
  {
    for i := 0 to |p.regexPaths|
      invariant forall j :: 0 <= j < i ==> capture(p.regexPaths[j], uri).None?
    {
      r := capture(p.regexPaths[i], uri);
      if r.Some? {
        assert FirstCapture(capture, p.regexPaths, uri, i);
        return;
      }
    }
    r := FindLongestPrefix(p.prefixPaths, uri);
  }

  method FindLongestPrefix(paths: seq<string>, uri: string) returns (best: Option<string>)
    ensures if best.Some? then LongestPrefix(paths, uri, best.value) else NoPrefix(paths, uri)
  {
    best := None;
    for i := 0 to |paths|
      invariant best.None? ==> forall j :: 0 <= j < i ==> !PrefixMatches(paths[j], uri)
      invariant best.Some? ==> best.value in paths && PrefixMatches(best.value, uri)
      invariant best.Some? ==> forall j :: 0 <= j < i && PrefixMatches(paths[j], uri) ==> |paths[j]| <= |best.value|
    {
      if PrefixMatches(paths[i], uri) && (best.None? || |paths[i]| > |best.value|) {
        best := Some(paths[i]);
      }
    }
  }

  // ---------------------------------------------------------------- against the configured paths

  lemma {:induction false} PrefixPathsAre(paths: seq<string>, p: string)
    ensures p in PrefixPaths(paths) <==> p in paths && !IsRegexPath(p)
  {
    if paths != [] {
      var front, last := paths[..|paths| - 1], paths[|paths| - 1];
      assert paths == front + [last];
      PrefixPathsAre(front, p);
    }
  }

  /** Some regular-expression path of the route matches. */
  ghost predicate AnyRegexFits(e: Engine, paths: seq<string>, uri: string) {
    exists i :: 0 <= i < |paths| && IsRegexPath(paths[i]) && PathFits(e, paths[i], uri)
  }

  lemma {:induction false} RegexPathsAre(e: Engine, paths: seq<string>, uri: string)
    ensures AnyRegexFits(e, paths, uri) <==> AnyMatch(e, RegexPaths(e, paths), uri)
  {
    if paths != [] {
      var front, p := paths[..|paths| - 1], paths[|paths| - 1];
      RegexPathsAre(e, front, uri);
      assert AnyRegexFits(e, paths, uri) <==> (IsRegexPath(p) && PathFits(e, p, uri)) || AnyRegexFits(e, front, uri) by {
        assert forall i :: 0 <= i < |front| ==> front[i] == paths[i];
      }
      if IsRegexPath(p) {
        AnyMatchOneMore(e, RegexPaths(e, front), p[1..], uri);
      }
    }
  }

  /** The path is an expression that captures something. */
  predicate Captures(e: Engine, capture: Capture, path: string, uri: string) {
    "~" <= path && e.compiles(path[1..]) && capture(path[1..], uri).Some?
  }

  /** The path at i is the first configured expression that captures something. */
  ghost predicate FirstExpression(e: Engine, capture: Capture, paths: seq<string>, uri: string, i: nat) {
    && i < |paths| && Captures(e, capture, paths[i], uri)
    && forall j :: 0 <= j < i ==> !Captures(e, capture, paths[j], uri)
  }

  lemma {:induction false} NoneCaptures(e: Engine, capture: Capture, paths: seq<string>, uri: string)
    requires NoCapture(capture, RegexPaths(e, paths), uri)
    ensures forall j :: 0 <= j < |paths| ==> !Captures(e, capture, paths[j], uri)
  {
    if paths != [] {
      var front, p := paths[..|paths| - 1], paths[|paths| - 1];
      var rest := RegexPaths(e, front);
      assert forall i :: 0 <= i < |rest| ==> rest[i] == RegexPaths(e, paths)[i];
      NoneCaptures(e, capture, front, uri);
      assert RegexPaths(e, paths) == rest || RegexPaths(e, paths)[|rest|] == p[1..];
      assert forall j :: 0 <= j < |front| ==> front[j] == paths[j];
    }
  }

  /** The first capturing expression of the preprocessed route is the first configured one. */
  lemma {:induction false} FirstIsConfigured(e: Engine, capture: Capture, paths: seq<string>, uri: string, k: nat) returns (i: nat)
    requires FirstCapture(capture, RegexPaths(e, paths), uri, k)
    ensures FirstExpression(e, capture, paths, uri, i) && paths[i][1..] == RegexPaths(e, paths)[k]
  {
    var front, p := paths[..|paths| - 1], paths[|paths| - 1];
    var rest := RegexPaths(e, front);
    assert forall j :: 0 <= j < |rest| ==> rest[j] == RegexPaths(e, paths)[j];
    assert forall j :: 0 <= j < |front| ==> front[j] == paths[j];
    if k < |rest| {
      i := FirstIsConfigured(e, capture, front, uri, k);
    } else {
      NoneCaptures(e, capture, front, uri);
      i := |front|;
    }
  }

  lemma CapturesAgree(e: Engine, capture: Capture, patterns: seq<string>, uri: string)
    requires Agrees(e, capture)
    ensures NoCapture(capture, patterns, uri) <==> !AnyMatch(e, patterns, uri)
  {
    forall i | 0 <= i < |patterns|
      ensures capture(patterns[i], uri).Some? <==> e.isMatch(patterns[i], uri)
    {
    }
  }

  /** r is one of the route's own plain paths, matches, and is the longest that does. */
  ghost predicate LongestConfigured(paths: seq<string>, uri: string, r: string) {
    && r in paths && !IsRegexPath(r) && PrefixMatches(r, uri)
    && forall q :: q in paths && !IsRegexPath(q) && PrefixMatches(q, uri) ==> |q| <= |r|
  }

  /** The list holds exactly the plain paths. */
  ghost predicate HoldsPlain(paths: seq<string>, plain: seq<string>) {
    forall p :: p in plain <==> p in paths && !IsRegexPath(p)
  }

  lemma LongestIsConfigured(paths: seq<string>, plain: seq<string>, uri: string, r: string)
    requires HoldsPlain(paths, plain) && LongestPrefix(plain, uri, r)
    ensures LongestConfigured(paths, uri, r)
  {
    forall q | q in paths && !IsRegexPath(q) && PrefixMatches(q, uri)
      ensures |q| <= |r|
    {
      assert q in plain;
      var i :| 0 <= i < |plain| && plain[i] == q;
    }
  }

  lemma SortedPathsAre(paths: seq<string>)
    ensures HoldsPlain(paths, Sort(LongerFirst, PrefixPaths(paths)))
  {
    SortKeeps(LongerFirst, PrefixPaths(paths));
    forall p
      ensures p in PrefixPaths(paths) <==> p in paths && !IsRegexPath(p)
    {
      PrefixPathsAre(paths, p);
    }
  }

  /** A path is found exactly when the route's path criterion is met, so matching a route and
      reporting what it matched never disagree; with a regular-expression hit it is the text of the
      first configured expression that captures, and otherwise the longest matching configured path. */
  lemma FoundExactlyWhenFits(e: Engine, capture: Capture, route: Route, uri: string, r: Option<string>)
    requires Agrees(e, capture) && Matched(capture, Process(e, route), uri, r)
    ensures r.Some? <==> AnyPathFits(e, route.paths, uri)
    ensures r.Some? && !AnyRegexFits(e, route.paths, uri) ==> LongestConfigured(route.paths, uri, r.value)
    ensures AnyRegexFits(e, route.paths, uri) ==>
              exists i: nat :: FirstExpression(e, capture, route.paths, uri, i) && r == capture(route.paths[i][1..], uri)
  {
    var p, patterns := Process(e, route), RegexPaths(e, route.paths);
    assert p.regexPaths == patterns;
    RegexPathsAre(e, route.paths, uri);
    CapturesAgree(e, capture, patterns, uri);
    if AnyRegexFits(e, route.paths, uri) {
      var k: nat :| FirstCapture(capture, patterns, uri, k) && r == capture(patterns[k], uri);
      var i := FirstIsConfigured(e, capture, route.paths, uri, k);
      assert PathFits(e, route.paths[i], uri);
    } else {
      SortedPathsAre(route.paths);
      assert p.prefixPaths == Sort(LongerFirst, PrefixPaths(route.paths));
      PrefixFoundExactlyWhenFits(e, route.paths, uri, r, p.prefixPaths);
    }
  }

  lemma PrefixFoundExactlyWhenFits(e: Engine, paths: seq<string>, uri: string, r: Option<string>, plain: seq<string>)
    requires HoldsPlain(paths, plain) && !AnyRegexFits(e, paths, uri)
    requires if r.Some? then LongestPrefix(plain, uri, r.value) else NoPrefix(plain, uri)
    ensures r.Some? <==> AnyPathFits(e, paths, uri)
    ensures r.Some? ==> LongestConfigured(paths, uri, r.value)
  {
    if r.Some? {
      LongestIsConfigured(paths, plain, uri, r.value);
      var i :| 0 <= i < |paths| && paths[i] == r.value;
      assert PathFits(e, paths[i], uri);
    } else {
      forall i | 0 <= i < |paths|
        ensures !PathFits(e, paths[i], uri)
      {
        if !IsRegexPath(paths[i]) {
          PlainPathFailsToFit(e, plain, uri, paths[i]);
        }
      }
    }
  }

  lemma PlainPathFailsToFit(e: Engine, plain: seq<string>, uri: string, path: string)
    requires NoPrefix(plain, uri) && path in plain && !IsRegexPath(path)
    ensures !PathFits(e, path, uri)
  {
    var k :| 0 <= k < |plain| && plain[k] == path;
    assert !PrefixMatches(plain[k], uri);
  }

  // ---------------------------------------------------------------- stripping

  function StripPrefix(uri: string, prefix: string): string {
    if prefix <= uri then uri[|prefix|..] else uri
  }

  predicate StartsWithSlash(s: string) {
    s != [] && s[0] == '/'
  }

  /** The request path with the matched path removed. */
  function Stripped(uri: string, matched: string): string {
    var rest := StripPrefix(uri, TrimEnd(matched, '/'));
    if rest == [] || !StartsWithSlash(rest) then "/" + rest else rest
  }

  /** The path sent upstream: the service's own path, if any, then the stripped path. */
  function UpstreamPath(uri: string, matched: string, servicePath: Option<string>): string {
    var path := Stripped(uri, matched);
    if servicePath.Some? then
      var base := TrimEnd(servicePath.value, '/');
      if path == "/" then base + "/" else base + path
    else path
  }

  lemma TrimEndIs(s: string, c: char, head: string)
    requires head <= s && (head == [] || head[|head| - 1] != c)
    requires forall i :: |head| <= i < |s| ==> s[i] == c
    ensures TrimEnd(s, c) == head
  {
    var t := TrimEnd(s, c);
    if |t| < |head| {
      assert s[|head| - 1] == head[|head| - 1];
    } else if |head| < |t| {
      assert s[|t| - 1] == t[|t| - 1];
    }
  }

  /** Stripping a matched prefix path loses nothing and cuts no segment: the trimmed path and the
      remainder rebuild the request path, and the remainder is empty or starts a new segment. */
  lemma StripRebuilds(uri: string, matched: string)
    requires StartsWithSlash(uri) && PrefixMatches(matched, uri)
    ensures var head := TrimEnd(matched, '/');
            var rest := StripPrefix(uri, head);
            && head + rest == uri && (rest == [] || StartsWithSlash(rest))
            && Stripped(uri, matched) == if rest == [] then "/" else rest
  {
    var head := TrimEnd(matched, '/');
    if uri != matched && head + "/" <= uri {
      assert (head + "/")[|head|] == '/' && uri[|head|] == '/';
    } else if uri != matched {
      TrimEndIs("/", '/', "");
    }
  }

  /** The upstream path always starts at a segment boundary, and two request paths that matched
      the same prefix are sent to the same upstream path only if they are equal or differ in one
      trailing slash right after the prefix. */
  lemma StripCollidesExactlyWhen(u: string, v: string, matched: string, servicePath: Option<string>)
    requires StartsWithSlash(u) && PrefixMatches(matched, u)
    requires StartsWithSlash(v) && PrefixMatches(matched, v)
    ensures var head := TrimEnd(matched, '/');
            UpstreamPath(u, matched, servicePath) == UpstreamPath(v, matched, servicePath) <==>
            u == v || (u == head && v == head + "/") || (v == head && u == head + "/")
    ensures var base := if servicePath.Some? then TrimEnd(servicePath.value, '/') else [];
            UpstreamPath(u, matched, servicePath) == base + Stripped(u, matched) && StartsWithSlash(Stripped(u, matched))
  {
    var head := TrimEnd(matched, '/');
    var base := if servicePath.Some? then TrimEnd(servicePath.value, '/') else [];
    JoinsBase(u, matched, servicePath);
    JoinsBase(v, matched, servicePath);
    CancelLeft(base, Stripped(u, matched), Stripped(v, matched));
    StripRebuilds(u, matched);
    StripRebuilds(v, matched);
    RemaindersCollide(head, StripPrefix(u, head), u, StripPrefix(v, head), v);
  }

  lemma JoinsBase(uri: string, matched: string, servicePath: Option<string>)
    ensures var base := if servicePath.Some? then TrimEnd(servicePath.value, '/') else [];
            UpstreamPath(uri, matched, servicePath) == base + Stripped(uri, matched) && StartsWithSlash(Stripped(uri, matched))
  {
  }

  /** Putting the root in place of an empty remainder identifies the empty one and the root, no more. */
  lemma RemaindersCollide(head: string, a: string, u: string, b: string, v: string)
    requires u == head + a && v == head + b
    ensures (if a == [] then "/" else a) == (if b == [] then "/" else b) <==>
            u == v || (u == head && v == head + "/") || (v == head && u == head + "/")
  {
    CancelLeft(head, a, b);
    CancelLeft(head, a, "/");
    CancelLeft(head, b, "/");
    CancelLeft(head, a, "");
    CancelLeft(head, b, "");
    assert head + "" == head;
  }

  lemma CancelLeft(base: string, a: string, b: string)
    ensures base + a == base + b <==> a == b
  {
    assert (base + a)[|base|..] == a && (base + b)[|base|..] == b;
  }

  /** The path is what follows some segment boundary of the request path: a slash, or its end. */
  ghost predicate AtBoundary(uri: string, path: string) {
    exists i: nat :: BoundaryAt(uri, i) && path == FromBoundary(uri, i)
  }

  predicate BoundaryAt(uri: string, i: nat) {
    i <= |uri| && (i == |uri| || uri[i] == '/')
  }

  function FromBoundary(uri: string, i: nat): string
    requires i <= |uri|
  {
    if i == |uri| then "/" else uri[i..]
  }

  /** Whatever text was matched, by a prefix or by an expression, no segment is cut exactly when the
      slash-trimmed text is not at the start of the request path, or is all of it, or is followed
      there by a slash. When it is not at the start, as when an expression hits further on, nothing
      is stripped. */
  lemma CutsNoSegmentExactlyWhen(uri: string, matched: string)
    requires StartsWithSlash(uri)
    ensures var head := TrimEnd(matched, '/');
            && (AtBoundary(uri, Stripped(uri, matched)) <==> !(head <= uri) || head == uri || uri[|head|] == '/')
            && (!(head <= uri) ==> Stripped(uri, matched) == uri)
  {
    var head := TrimEnd(matched, '/');
    var rest, path := StripPrefix(uri, head), Stripped(uri, matched);
    if !(head <= uri) {
      assert BoundaryAt(uri, 0) && uri[0..] == uri;
    } else if head == uri {
      assert BoundaryAt(uri, |uri|);
    } else if uri[|head|] == '/' {
      assert BoundaryAt(uri, |head|);
    } else {
      forall i: nat | BoundaryAt(uri, i)
        ensures path != FromBoundary(uri, i)
      {
        assert |path| == |uri| - |head| + 1;
        assert head != [] ==> uri[|head| - 1] == head[|head| - 1];
      }
    }
  }

  /** An expression may match less than a segment, and then a segment is cut. It is the text that
      counts: a hit further on whose text also begins the path is stripped from the beginning. */
  lemma RegexMayCutSegment()
    ensures Stripped("/foobar", "/fo") == "/obar" && !AtBoundary("/foobar", Stripped("/foobar", "/fo"))
    ensures Stripped("/ab/a", "/a") == "/b/a" && !AtBoundary("/ab/a", Stripped("/ab/a", "/a"))
  {
    TrimEndIs("/fo", '/', "/fo");
    assert "/foobar"[3..] == "obar";
    CutsNoSegmentExactlyWhen("/foobar", "/fo");
    TrimEndIs("/a", '/', "/a");
    assert "/ab/a"[2..] == "b/a";
    CutsNoSegmentExactlyWhen("/ab/a", "/a");
  }
}
