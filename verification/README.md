# Gateway decision logic

These modules model the parts of an API gateway that decide something: which route a request
takes, which plugins run, which target serves it, which rows a page shows, which bytes a body
filter hands on. Each is proved to decide the same way for every input and every run.

| file | subject |
|---|---|
| `ClientHello.dfy` | the SNI parser that runs on peeked TLS bytes, and an encoder to prove it against |
| `Expressions.dfy`, `ExpressionGrammar.dfy`, `ExpressionPanics.dfy`, `ExpressionRouter.dfy` | the expression router: its scanning parser and evaluator, the grammar the parser is proved to implement, when it panics, and route selection |
| `Health.dfy` | passive health checking as a counter machine over report histories |
| `Wheel.dfy`, `HashRing.dfy`, `Balancer.dfy` | weighted round-robin, consistent hashing, least connections, and their health filter |
| `Plugins.dfy`, `Coverage.dfy` | the plugin resolver, the proxy's chain cache, and the admin's coverage index |
| `Traditional.dfy`, `PathStrip.dfy` | the traditional HTTP router, path matching and path stripping |
| `Cidr.dfy`, `Stream.dfy` | address blocks and the stream router |
| `Dispatch.dfy` | the dispatch-hook protocol with arbitrary hooks and compensators |
| `Paging.dfy`, `Dbless.dfy` | the in-memory store: loading, its two indexes, cursor pagination |
| `SpillableBuffer.dfy`, `BodyStream.dfy`, `ResponseBody.dfy`, `RequestBody.dfy` | body buffering with arbitrary disk failures, and the retry tail |
| `Sorting.dfy`, `Arithmetic.dfy`, `Bits.dfy`, `Protocols.dfy`, `Wrappers.dfy` | stable sorting and its two uses (first match, last overwrite); a division fact; bit masks; the HTTP protocols; the option type |

Loops and state of the source are methods and classes here; each is proved against a function or
predicate, and the lemmas about those say what the code promises. What a main operation answers is
also written out on its inputs alone, with the source's field names, tables and constants, so that
the statement does not rest on the functions the code itself uses.

Conventions. In the expression modules strings are sequences of Unicode characters; elsewhere an
element stands for a byte, so that lengths are the ones the code compares. Regular expressions, hashing, case folding,
UUID and address parsing are function parameters, so every theorem holds for all of them. UUIDs
are ordered natural numbers. Hash-map iteration order is an arbitrary choice. Disk outcomes and
hook behaviour are arbitrary. A mask of leading ones is applied by shifting right and left.

## Where the code and its description differ

The models follow the code. Each difference has a lemma that states exactly when the description
holds, or a concrete input where it does not.

- The wheel is described as interleaving so that no target is hit twice in a row; over consecutive
  picks that holds exactly under the condition of `Wheel.NeverRepeatsExactlyWhen`, and not for the
  3:2 example given with it, which repeats from the end of a turn to its beginning
  (`Wheel.SeamRepeats`).
- `tcp_failures` and `timeouts` are described as consecutive failures, but a healthy HTTP status
  does not reset them (`Health.CountIsStreakExactlyWhen`, `Health.TripsAcrossSuccess`).
- `not in` is described as an operator; the parser never produces it
  (`ExpressionGrammar.NotInIsNeverParsed`).
- The expression parser is written to return errors, yet it panics, and only
  (`ExpressionPanics.PanicsOnlyAt`) on a quotation mark that stands alone as a value or list item,
  or on a character beyond ASCII outside double quotes and parentheses. A properly quoted comma in a
  list is enough, because lists are cut at every comma, and so is an accented letter in single
  quotes.
- Plugin instances for a combination are described as more specific than any other; one for a
  consumer alone outranks one for a route and a service
  (`Plugins.EffectiveIsDocumentedExactlyWhen`).
- The coverage index is described as matching the runtime resolver; across workspaces a foreign
  global plugin can separate them (`Coverage.AgreesWithRuntimeExactlyWhen`).
- The stream router is described as preferring exact SNIs over wildcards, and SNI over source over
  destination; its order looks only at the number of criteria and age
  (`Stream.PickedByNameExactlyWhen`, `Stream.WildcardBeatsExact`, `Stream.PickedByRankExactlyWhen`,
  `Stream.DestinationBeatsSource`). An unreadable address rule matches every address
  (`Stream.FitsEveryPeerExactlyWhen`).
- Prefix paths match whole segments and strip whole segments; an expression hit may cut one
  (`PathStrip.CutsNoSegmentExactlyWhen`).
- Filtered listings fetch ten pages' worth of rows "to ensure enough results"; matching rows
  farther away are lost (`Paging.FilteredWalkVisitsAllExactlyWhen`).
- The flag that forbids dispatch is described as irreversible, but later hooks and compensators can
  write it (`Dispatch.LaterHookClearsFlag`, `Dispatch.FlagIsReversible`);
  `Dispatch.IrreversibleExactlyWhen` says which assemblies keep it.
- The request body filter is described as collecting chunks; without a body read ahead it keeps
  the first chunk only (`RequestBody.FilterConservesExactlyWhen`), and from a fresh filter its interval
  timeout is unreachable (`RequestBody.TimesOutExactlyWhen`).
- Retry capture is switched on so that the proxy loop sees a non-empty tail; a last chunk over
  64 KiB defeats it (`RequestBody.CaptureIsUsefulExactlyWhen`).

## Model

| member | source | states |
|---|---|---|
| ClientHello.ParseSniFromClientHello | crates/kong-proxy/src/stream_tls.rs:29-115 | The imperative parser, with its cursor and every bounds test, returns the reference reading of the buffer; no byte string makes it read out of range. |
| ClientHello.ParseSniExtension | crates/kong-proxy/src/stream_tls.rs:120-145 | Walking a server_name extension returns its first host_name entry that is complete within the data and valid UTF-8, and nothing for a host_name that is not UTF-8. |
| ClientHello.ParseExtensions | crates/kong-proxy/src/stream_tls.rs:90-115 | Walking the extension block returns the name found in the first server_name extension. |
| ClientHello.SkipToExtensions | crates/kong-proxy/src/stream_tls.rs:29-90 | The fixed fields and the three length-prefixed vectors are skipped to exactly the extension block, or None if the buffer ends or the header is not a ClientHello. |
| ClientHello.TruncationLaw | crates/kong-proxy/src/stream_tls.rs:29-145 | Cutting the buffer after k bytes keeps the answer if the host name ends within k bytes and gives None otherwise; an answer never changes as more bytes arrive. |
| ClientHello.HostNameTruncation | crates/kong-proxy/src/stream_tls.rs:120-145 | The same law for the name list. |
| ClientHello.ExtensionsTruncation | crates/kong-proxy/src/stream_tls.rs:90-115 | The same law for the extension block. |
| ClientHello.DecodesEveryHello | crates/kong-proxy/src/stream_tls.rs:207-313 | Any encoded ClientHello (sections 7.4.1.2 of RFC 5246 and 3 of RFC 6066), whatever its session id, suites, compression methods, extensions and trailing bytes, parses to its first host name if that encodes Unicode text. |
| ClientHello.DecodesExtensions | crates/kong-proxy/src/stream_tls.rs:207-269 | Any list of extensions is walked correctly: those before the server name are skipped, those after it are not read. |
| ClientHello.DecodesNames | crates/kong-proxy/src/stream_tls.rs:207-228 | Any list of server names is walked to its first host_name entry. |
| ClientHello.PeekSuffices | crates/kong-proxy/src/stream_tls.rs:152-156 | A peek suffices exactly when it reaches the end of the host name. |
| ClientHello.AsciiIsUtf8 | crates/kong-proxy/src/stream_tls.rs:120-145 | Host names made of ASCII bytes pass the UTF-8 test. |
| ClientHello.ValidExactlyWhenText | crates/kong-proxy/src/stream_tls.rs:120-145 | The UTF-8 test a host name passes accepts exactly the encodings of sequences of Unicode scalar values (section 3 of RFC 3629). |
| Expressions.FindOperator | crates/kong-router/src/expressions.rs:270-295 | The quote- and depth-tracking scan returns the first position of the operator outside quotes and parentheses, or stops at the first character beyond ASCII there, which it slices. |
| ExpressionGrammar.ParsesEverySentence | crates/kong-router/src/expressions.rs:240-352 | The operator-scanning parser reads every sentence of the grammar (both connectives, parentheses, tests, membership lists, header names in either case), with any surrounding blanks, as its meaning. |
| ExpressionGrammar.RoundTrip | crates/kong-router/src/expressions.rs:240-362 | The fully parenthesised rendering of a tree parses back to that tree. |
| ExpressionGrammar.AndBindsTighterRight | crates/kong-router/src/expressions.rs:240-267 | a &#124;&#124; b && c means a &#124;&#124; (b && c). |
| ExpressionGrammar.AndBindsTighterLeft | crates/kong-router/src/expressions.rs:240-267 | a && b &#124;&#124; c means (a && b) &#124;&#124; c. |
| ExpressionGrammar.ParsesTest | crates/kong-router/src/expressions.rs:298-326 | Each comparison is cut at its own operator although all operators are searched for inside quotes too. |
| ExpressionGrammar.ParsesMember | crates/kong-router/src/expressions.rs:328-352 | A membership test is parsed to the field and exactly the listed values. |
| ExpressionGrammar.SkipsConj | crates/kong-router/src/expressions.rs:270-295 | The scan for &#124;&#124; passes over a whole conjunction, however nested and quoted. |
| ExpressionGrammar.NotInIsNeverParsed | crates/kong-router/src/expressions.rs:328-349 | No text with a not-in test parses to NotIn: the search for in comes first. |
| ExpressionPanics.PanicsOnlyAt | crates/kong-router/src/expressions.rs:240-362 | Whatever the input, a panic means that a quotation mark stands alone in it, or that a character beyond ASCII is outside double quotes and parentheses, counted from the beginning of the text, an opening parenthesis or a connective. |
| ExpressionPanics.PanicsOnlyAtLoneQuote | crates/kong-router/src/expressions.rs:240-362 | On ASCII text a panic means that a quotation mark stands alone: behind an operator or comma and before a comma, closing parenthesis, connective or the end, blanks aside. |
| ExpressionPanics.ScanWithoutConnective | crates/kong-router/src/expressions.rs:270-295 | On a text without connectives the operator scan goes through exactly when no character beyond ASCII is outside double quotes and parentheses. |
| ExpressionPanics.ComparisonPanicsExactlyWhen | crates/kong-router/src/expressions.rs:270-326 | A single comparison with any operator panics exactly when its value is one quotation mark, blanks aside, or a character beyond ASCII is outside double quotes and parentheses. |
| ExpressionPanics.MembershipPanicsExactlyWhen | crates/kong-router/src/expressions.rs:270-337 | A membership test panics exactly when one of its comma-separated items is one quotation mark, blanks aside, or a character beyond ASCII is outside double quotes and parentheses. |
| ExpressionPanics.LoneQuotePanics | crates/kong-router/src/expressions.rs:355-362 | A lone single or double quotation mark panics for every field and operator. |
| ExpressionPanics.QuotedCommaPanics | crates/kong-router/src/expressions.rs:328-337 | A properly quoted comma as the item of a list panics, because the list is cut at it. |
| ExpressionPanics.WideValuePanics | crates/kong-router/src/expressions.rs:270-295 | A value with an accented letter, bare or in single quotes, panics although no quotation mark stands alone. |
| ExpressionRouter.HoldsExactly | crates/kong-router/src/expressions.rs:173-267 | Parsing and evaluating the text of any sentence decides what the sentence says about the request, absent headers and SNI included. |
| ExpressionRouter.MethodTests | crates/kong-router/src/expressions.rs:173-228 | Any text that tests http.method with ==, !=, ~ or in holds exactly when the request's method is, is not, matches or is among the values written. |
| ExpressionRouter.HostTests | crates/kong-router/src/expressions.rs:173-228 | The same for http.host and the request's host. |
| ExpressionRouter.PathTests | crates/kong-router/src/expressions.rs:173-228 | The same for http.path and the request's URI. |
| ExpressionRouter.ProtocolTests | crates/kong-router/src/expressions.rs:173-228 | The same for net.protocol and the request's scheme. |
| ExpressionRouter.SniTests | crates/kong-router/src/expressions.rs:173-228 | The same for tls.sni and the SNI; without one every test but != fails. |
| ExpressionRouter.HeaderTests | crates/kong-router/src/expressions.rs:173-228 | The same for http.headers.n and the header whose name is n in lower case; without one every test but != fails. |
| ExpressionRouter.MeaningSays | crates/kong-router/src/expressions.rs:173-199 | Evaluating a sentence's tree agrees with reading the sentence. |
| ExpressionRouter.TakesWhatItSays | crates/kong-router/src/expressions.rs:77-164 | Routes for one of the six HTTP protocols whose expressions are sentences all compile, and a request is taken by the earliest configured of those with the highest configured priority (0 if none is configured) whose sentence says so, or by none exactly when no sentence does. |
| ExpressionRouter.CompileRoutes | crates/kong-router/src/expressions.rs:77-117 | Routes without a usable expression are dropped; compiling panics exactly when some route's expression does. |
| ExpressionRouter.ExpressionsRouter.FindRouteUncached | crates/kong-router/src/expressions.rs:145-164 | None exactly when no compiled expression holds; otherwise the earliest configured of the holding routes with the highest priority. |
| Health.CountersAfter | crates/kong-proxy/src/health.rs:137-228 | After every run of reports each counter is the number of its events since the last event that resets it. |
| Health.UnhealthyIsShort | crates/kong-proxy/src/health.rs:137-228 | While a target is unhealthy its success streak is below the threshold. |
| Health.RecoversExactlyWhen | crates/kong-proxy/src/health.rs:137-188 | A report brings an unhealthy target back exactly when it is the healthy_successes-th success since the last failure, and never with threshold 0. |
| Health.TripsExactlyWhen | crates/kong-proxy/src/health.rs:154-228 | A report takes a healthy target out exactly when its own failure counter reaches its non-zero threshold. |
| Health.StatusAfter | crates/kong-proxy/src/health.rs:39-228 | Every run of reports leaves a target out of rotation exactly when some report is a failure whose own count reaches its non-zero threshold and after no later report do the successes since the last failure reach healthy_successes; a target without reports is in rotation. |
| Health.HealthyExactlyWhen | crates/kong-proxy/src/health.rs:123-135 | In every reachable state a target is healthy exactly unless it is registered and its reports since then leave it out; targets nobody registered are healthy. |
| Health.NeverRecovers | crates/kong-proxy/src/health.rs:137-188 | With healthy_successes at 0 an unhealthy target stays unhealthy over every further run. |
| Health.CountIsStreakExactlyWhen | crates/kong-proxy/src/health.rs:154-228 | Either of the two counters that only report_success clears is the documented streak exactly when no healthy HTTP status follows an uncleared failure of its kind. |
| Health.TcpCountIsStreakExactlyWhen | crates/kong-proxy/src/health.rs:154-209 | So for the stored tcp_failures. |
| Health.TimeoutCountIsStreakExactlyWhen | crates/kong-proxy/src/health.rs:154-228 | So for the stored timeouts. |
| Health.TripsAcrossSuccess | crates/kong-proxy/src/health.rs:154-228 | Two TCP failures, or two timeouts, with a healthy HTTP status between them trip a threshold of two. |
| Health.HealthChecker.RegisterUpstream | crates/kong-proxy/src/health.rs:104-121 | Registration puts every named target in rotation, restarts the histories of the upstream's targets and touches no other upstream. |
| Health.HealthChecker.UpdateHealth | crates/kong-proxy/src/health.rs:244-266 | A report is applied to the named target alone and ignored for unknown ones; together with the invariant every reachable counter is what its history says. |
| Wheel.Gcd | crates/kong-proxy/src/balancer.rs:373-381 | The remainder loop computes the greatest common divisor function. |
| Wheel.GcdIsGreatest | crates/kong-proxy/src/balancer.rs:373-381 | A number divides the result exactly when it divides both arguments. |
| Wheel.GcdAllIsGreatest | crates/kong-proxy/src/balancer.rs:175-180 | A number divides the folded divisor exactly when it divides every weight. |
| Wheel.SumReduced | crates/kong-proxy/src/balancer.rs:180-190 | Dividing all weights by their divisor divides the total: the slot count equals the sum of the shares. |
| Wheel.MaxByKey | crates/kong-proxy/src/balancer.rs:183-198 | The maximum picked is the last of the largest. |
| Wheel.SpinCounts | crates/kong-proxy/src/balancer.rs:180-200 | The filled wheel holds every target exactly as often as its share says. |
| Wheel.InterleavesExactlyWhen | crates/kong-proxy/src/balancer.rs:180-200 | No two neighbouring slots of one turn are equal exactly when the first target filled has an equally heavy rival, or a later one lighter by one. |
| Wheel.FirstTargetIsLast | crates/kong-proxy/src/balancer.rs:186-200 | The last slot of every turn belongs to the first target. |
| Wheel.NeverRepeatsExactlyWhen | crates/kong-proxy/src/balancer.rs:154-204 | The source promises that no target is hit twice in a row; over the turning wheel that holds exactly when the target filled first is not the first one and has an equally heavy rival, or a later one lighter by one. |
| Wheel.SeamRepeats | crates/kong-proxy/src/balancer.rs:180-204 | Shares 2 and 1, and the 3 and 2 of the source's own example, alternate within a turn and repeat from its end to its beginning. |
| Wheel.ThreeToOneRepeats | crates/kong-proxy/src/balancer.rs:154-200 | Shares 3 and 1 give neighbouring equal slots. |
| Wheel.FullTurn | crates/kong-proxy/src/balancer.rs:201-204 | A whole turn from any index hits each target exactly its share. |
| Wheel.FairShare | crates/kong-proxy/src/balancer.rs:201-204 | Any n consecutive picks hit a target between the floor and the ceiling of n over the wheel length, times its share. |
| HashRing.BuildHashRing | crates/kong-proxy/src/balancer.rs:391-420 | The ring is sorted, every target is on it, and the node of index i of a target is there exactly when i is 0 or (i + 1) times the total is at most weight times slots, each node as often as its target's indices give it. |
| HashRing.AllNodesCover | crates/kong-proxy/src/balancer.rs:391-420 | Every target has at least one node and no node points outside the targets. |
| HashRing.AllNodesCount | crates/kong-proxy/src/balancer.rs:404-415 | The nodes made for the targets, counted by target and hash, are those of the indices that the weights ask for. |
| HashRing.BinarySearch | crates/kong-proxy/src/balancer.rs:222-226 | The search is a function of ring and hash, and returns an exact hit or the insertion point. |
| HashRing.Walk | crates/kong-proxy/src/balancer.rs:227-241 | The clockwise loop returns the first node of a healthy target. |
| HashRing.WalkSucceeds | crates/kong-proxy/src/balancer.rs:227-241 | With any healthy target the walk finds one: the fallback after the loop is never reached. |
| HashRing.MinimalDisturbance | crates/kong-proxy/src/balancer.rs:227-241 | A walk from a given position ends at the same node under every smaller healthy set that still contains its target. |
| HashRing.OwnerStays | crates/kong-proxy/src/balancer.rs:208-242 | A key keeps its target under every such set, on every ring, equal hashes included. |
| HashRing.OwnerIsNearest | crates/kong-proxy/src/balancer.rs:208-242 | With distinct hashes a key's target has the healthy node nearest clockwise. |
| HashRing.SearchStarts | crates/kong-proxy/src/balancer.rs:222-226 | With distinct hashes every binary search starts the walk at the first node at or after the key, wrapping round. |
| HashRing.PicksNearest | crates/kong-proxy/src/balancer.rs:208-242 | The node chosen is the nearest healthy one clockwise from the key's hash. |
| Balancer.LoadBalancer.constructor | crates/kong-proxy/src/balancer.rs:57-89 | Exactly the targets of positive weight are kept, each as often as configured; under consistent hashing the ring holds their nodes in proportion to weight, and the invariant keeps it so. |
| Balancer.LoadBalancer.GetHealthyIndices | crates/kong-proxy/src/balancer.rs:134-143 | Exactly the healthy targets, in ascending order, and none exactly when none is healthy. |
| Balancer.LoadBalancer.WeightedRoundRobin | crates/kong-proxy/src/balancer.rs:159-205 | The pick is the wheel's slot at the round-robin index, which advances by one with wrap-around only if there is a choice. |
| Balancer.LoadBalancer.ConsistentHashSelect | crates/kong-proxy/src/balancer.rs:208-242 | The pick is the owner of the key's hash among the healthy targets, of the hash of the text default if there is no key, and the index stays. |
| Balancer.KeyStaysPut | crates/kong-proxy/src/balancer.rs:208-242 | A key's pick under a healthy selection is its pick under every smaller one that contains it. |
| Balancer.KeyPicksNearest | crates/kong-proxy/src/balancer.rs:208-242 | With distinct node hashes a key's pick has the nearest healthy node clockwise. |
| Balancer.LoadBalancer.LeastConnectionsSelect | crates/kong-proxy/src/balancer.rs:245-269 | The pick is the first of the targets with the fewest connections times 100 over weight, rounded down. |
| Balancer.LighterIsFewerPerWeight | crates/kong-proxy/src/balancer.rs:255-263 | A target with no more connections per unit of weight that stands no later is never passed over, and a target picked over another has at most a hundredth more per unit of weight. |
| Balancer.LoadBalancer.SelectAmong | crates/kong-proxy/src/balancer.rs:116-131 | Each algorithm's own rule decides among the healthy targets. |
| Balancer.LoadBalancer.SelectOrFallBack | crates/kong-proxy/src/balancer.rs:110-152 | With no healthy target the wheel turns over all of them. |
| Balancer.LoadBalancer.SelectWithKey | crates/kong-proxy/src/balancer.rs:104-131 | A healthy target is returned whenever there is one, and it is the one the algorithm's rule names; None only without targets. |
| Balancer.LoadBalancer.PickRepeatedly | crates/kong-proxy/src/balancer.rs:201-204 | A run of picks reads consecutive slots. |
| Balancer.SlotShares | crates/kong-proxy/src/balancer.rs:167-200 | The wheel over any selection has total/g slots and holds each target weight/g times. |
| Balancer.DivisorIsGreatest | crates/kong-proxy/src/balancer.rs:175-180 | Every common divisor of the selected weights divides the one used. |
| Balancer.PicksNeverRepeatExactlyWhen | crates/kong-proxy/src/balancer.rs:154-204 | For any selected targets, no two consecutive picks from any index go to the same one exactly under that condition on their shares. |
| Balancer.BuildWheel | crates/kong-proxy/src/balancer.rs:167-200 | The two slot loops produce the specified wheel, as target indices. |
| Balancer.RunIsFair | crates/kong-proxy/src/balancer.rs:159-205 | Any n consecutive picks hit each selected target between floor(n/W) and ceil(n/W) times weight/g. |
| Plugins.EffectiveWins | crates/kong-plugin-system/src/lib.rs:274-325 | The instance in force has no applicable rival that is more specific, or equally specific and configured later. |
| Plugins.MoreSpecificExactlyWhen | crates/kong-plugin-system/src/lib.rs:286-292 | One instance is less specific than another exactly by consumer, then route, then service. |
| Plugins.AppliesExactlyWhen | crates/kong-plugin-system/src/lib.rs:464-492 | An instance applies exactly when it is enabled, has the name, and every route, service and consumer it is attached to is the request's. |
| Plugins.FollowsDocumentedOrderExactlyWhen | crates/kong-plugin-system/src/lib.rs:276-292 | The sort key follows the documented order (global, service, route, consumer, combination) between any two instances exactly unless one for a consumer alone meets one for a route and a service. |
| Plugins.EffectiveIsDocumentedExactlyWhen | crates/kong-plugin-system/src/lib.rs:276-292 | So the instance in force is of the highest documented rank that applies exactly unless it is for a consumer alone and one for the route and the service applies too. |
| Plugins.ConsumerBeatsCombination | crates/kong-plugin-system/src/lib.rs:283-292 | Two instances on which code and documented order differ, in either configured order. |
| Plugins.ResolvePlugins | crates/kong-plugin-system/src/lib.rs:274-325 | The resolver (filter, stable sort, overwriting inserts, priority sort) returns one entry per registered name in force, in descending priority. |
| Plugins.Overwrite | crates/kong-plugin-system/src/lib.rs:294-318 | The insertion loop keeps the last matching candidate of each registered name. |
| Plugins.OverwriteIsEffective | crates/kong-plugin-system/src/lib.rs:274-318 | Sorting by specificity and overwriting picks the most specific and latest instance. |
| Plugins.ChainsAgree | crates/kong-plugin-system/src/lib.rs:274-325 | Any two chains for the same plugins and scope hold the same entries and differ at most among equal priorities. |
| Plugins.ChainCache.RebuildPluginChains | crates/kong-proxy/src/lib.rs:559-600 | Every cached chain is the current plugin list's, for every key the plugins give rise to. |
| Plugins.ChainCache.UpdatePlugins | crates/kong-proxy/src/lib.rs:550-556 | Replacing the plugins re-establishes that for the new list. |
| Plugins.ChainCache.UpdateRoutes | crates/kong-proxy/src/lib.rs:503-515 | Replacing the routes keeps it. |
| Plugins.ChainCache.ChainFor | crates/kong-proxy/src/lib.rs:1129-1146 | Cached or by fallback, the chain found for any route and service is one that resolving the current list gives. |
| Coverage.PlaceAll | crates/kong-admin/src/ai_policy_coverage.rs:86-154 | The loop over plugins computes the scope table and the set of invalid routes. |
| Coverage.EffectivePlugin | crates/kong-admin/src/ai_policy_coverage.rs:297-343 | The four table look-ups return the most specific filed plugin. |
| Coverage.FiledExactlyWhenApplies | crates/kong-admin/src/ai_policy_coverage.rs:86-154 | A plugin is filed under one of a route's keys exactly when it applies to the route in its workspace. |
| Coverage.TableIsLastMax | crates/kong-admin/src/ai_policy_coverage.rs:86-154 | The table yields the last of the most specific applicable plugins of the workspace. |
| Coverage.AgreesWithResolver | crates/kong-admin/src/ai_policy_coverage.rs:297-343 | For every route not marked invalid the index finds exactly the plugin the runtime resolver picks from the workspace's plugins. |
| Coverage.AgreesWithRuntimeExactlyWhen | crates/kong-admin/src/ai_policy_coverage.rs:297-343 | Across workspaces they agree exactly unless every applicable plugin is global and the last of them belongs to another workspace. |
| Coverage.ForeignGlobalDisagrees | crates/kong-admin/src/ai_policy_coverage.rs:297-343 | Two workspaces with a global plugin each, on which they differ. |
| Coverage.TallyRoute | crates/kong-admin/src/ai_policy_coverage.rs:156-232 | One route's contribution by the order of checks in the source, over the scope table. |
| Coverage.Build | crates/kong-admin/src/ai_policy_coverage.rs:64-237 | For every workspace, with unique ids, the three counts are the numbers of its routes that are authenticated, enforced and erroneous, each by a condition on the configuration and the plugins the runtime resolver picks; in general they are the sums over its routes. |
| Coverage.TallyIs | crates/kong-admin/src/ai_policy_coverage.rs:156-232 | A route counts as authenticated when it is sound, callable, not marked invalid and its auth in force is valid; as enforced when proxy is valid and the rate limit is for virtual keys besides; as an error when its service is broken, or it is callable and marked invalid, or has an invalid configuration in force, or a virtual-key limit without valid auth and proxy. |
| Coverage.EnforcedIsNoError | crates/kong-admin/src/ai_policy_coverage.rs:210-232 | No route is both enforced and an error, and every enforced one is authenticated. |
| Coverage.InvalidExactlyWhenMarked | crates/kong-admin/src/ai_policy_coverage.rs:86-154 | A route is marked invalid exactly when some enabled policy plugin without a consumer, attached to it, is of another workspace or names a service that is not the route's or not in its workspace, or one attached to its service alone is of another workspace. |
| Coverage.TotalsFollowResolver | crates/kong-admin/src/ai_policy_coverage.rs:156-237 | With unique ids these sums are the ones the runtime resolver's choices would give. |
| Traditional.ProcessRoute | crates/kong-router/src/traditional.rs:503-655 | Preprocessing accumulates the weight, bitmask, sub-weight, patterns and matchers specified for the route. |
| Traditional.ProcessHosts | crates/kong-router/src/traditional.rs:508-537 | Hosts are split into plain ones and compiled wildcards, in order. |
| Traditional.ProcessPaths | crates/kong-router/src/traditional.rs:539-566 | Paths are split into prefixes, longest first, and compiled expressions. |
| Traditional.ProcessHeader | crates/kong-router/src/traditional.rs:580-606 | Header values and the last pattern make the matcher. |
| Traditional.MatchIsFit | crates/kong-router/src/traditional.rs:306-441 | The bitmask-driven match of a preprocessed route holds exactly when every criterion of the configured route is met. |
| Traditional.WildcardDomain | crates/kong-router/src/traditional.rs:518-530 | A star and dots in a wildcard host: one or more characters, and literal dots. |
| Traditional.HeaderPatternIsLast | crates/kong-router/src/traditional.rs:587-597 | Of several patterns among a header's values only the last counts, if it compiles. |
| Traditional.WeightCountsBits | crates/kong-router/src/traditional.rs:503-655 | match_weight is the number of bits of match_rules. |
| Traditional.RulesDetermineWeight | crates/kong-router/src/traditional.rs:177-224 | Routes that share a bitmask share their weight, so a category has one weight. |
| Traditional.SortsBeforeOrders | crates/kong-router/src/traditional.rs:658-687 | sort_routes is a total preorder. |
| Traditional.PrecedesOrders | crates/kong-router/src/traditional.rs:177-224 | So is the overall order: weight, bitmask, then sort_routes. |
| Traditional.PrecedesIsOrder | crates/kong-router/src/traditional.rs:177-224 | On the configured fields the overall order is lexicographic: number of criteria; hosts; headers; paths; methods; SNIs; plain hosts only; an expression path; number of headers; regex priority if there is an expression; longest plain path; age. |
| Traditional.SortsBeforeIsOrder | crates/kong-router/src/traditional.rs:658-687 | On routes with the same kinds of criteria sort_routes is the tail of that order. |
| Traditional.SortKeepsFirst | crates/kong-router/src/traditional.rs:158-176 | Sorting by the finer keys first leaves the earliest best match the same. |
| Traditional.BuildCategories | crates/kong-router/src/traditional.rs:177-224 | Whatever order the hash map iterates in: one category per bitmask in use, its routes in sorted order, best category first. |
| Traditional.ScanCategory | crates/kong-router/src/traditional.rs:269-303 | The first match within one category. |
| Traditional.FindRouteUncached | crates/kong-router/src/traditional.rs:269-303 | The category scan returns the earliest best match among the sorted routes, and None exactly when none matches. |
| Traditional.TraditionalRouter.constructor | crates/kong-router/src/traditional.rs:152-241 | The router holds the sorted preprocessed HTTP routes and their categories. |
| Traditional.TraditionalRouter.FindRoute | crates/kong-router/src/traditional.rs:158-303 | None exactly when no route for one of the six HTTP protocols fits; otherwise a fitting one that comes no later than any other in that lexicographic order on the configured fields, the earliest configured on ties. |
| PathStrip.FindMatchedPath | crates/kong-router/src/traditional.rs:444-492 | The text of the first expression that captures, else the longest matching prefix. |
| PathStrip.FindLongestPrefix | crates/kong-router/src/traditional.rs:476-491 | The prefix loop returns the longest matching prefix, or None exactly when none matches. |
| PathStrip.FoundExactlyWhenFits | crates/kong-router/src/traditional.rs:422-492 | A path is found exactly when the route's path criterion is met: the text of the first configured expression that captures, and without an expression hit the longest matching configured path. |
| PathStrip.StripRebuilds | crates/kong-proxy/src/lib.rs:1450-1461 | The slash-trimmed prefix followed by the remainder rebuilds the request path, and the remainder is empty or starts a new segment. |
| PathStrip.StripCollidesExactlyWhen | crates/kong-proxy/src/lib.rs:1450-1475 | Two request paths matched by one prefix go to the same upstream path exactly when they are equal or differ in one slash right after the prefix. |
| PathStrip.CutsNoSegmentExactlyWhen | crates/kong-proxy/src/lib.rs:1450-1461 | For any matched text, prefix or expression hit, the stripped path starts at a segment boundary exactly when the trimmed text is not at the start of the path, or is all of it, or is followed by a slash; not at the start, nothing is stripped. |
| PathStrip.RegexMayCutSegment | crates/kong-proxy/src/lib.rs:1450-1461 | Two expression hits that cut a segment, one of them further on in the path. |
| Stream.MatchRoute | crates/kong-router/src/stream.rs:180-222 | A preprocessed stream route matches exactly when every criterion of the configured route is met. |
| Stream.MatchSni | crates/kong-router/src/stream.rs:301-318 | An SNI matches a pattern exactly or one label below a wildcard domain. |
| Stream.StarIsOneLabel | crates/kong-router/src/stream.rs:301-318 | A wildcard pattern covers a name exactly when the name is its domain below exactly one label. |
| Stream.ParsesBlock | crates/kong-router/src/stream.rs:320-332 | An address rule is read as exactly the block its text names: address and length around the first slash, or a bare address with 32 or 128 bits. |
| Stream.MatchAny | crates/kong-router/src/stream.rs:194-219 | Some address and port rule matches. |
| Stream.FitsEveryPeerExactlyWhen | crates/kong-router/src/stream.rs:85-117 | A rule with an address and no port fits every peer, even one without an address, exactly when its address does not parse. |
| Stream.StreamRouter.constructor | crates/kong-router/src/stream.rs:130-152 | The router holds the stream routes sorted by weight and age. |
| Stream.StreamRouter.FindRoute | crates/kong-router/src/stream.rs:155-167 | None exactly when no route for tcp, tls or tls_passthrough fits; otherwise the fitting one with most kinds of criteria, then the oldest, then the earliest configured. |
| Stream.StreamRouter.Rebuild | crates/kong-router/src/stream.rs:175-177 | Rebuilding re-establishes the sorted table. |
| Stream.PickedExactlyWhen | crates/kong-router/src/stream.rs:155-167 | For any kind of route: the one taken is of that kind exactly when a fitting one of the kind comes, by number of criteria, age and position, before every fitting one that is not. |
| Stream.PickedByNameExactlyWhen | crates/kong-router/src/stream.rs:3-5 | The documented preference of exact over wildcard names holds exactly when a fitting route that names the host comes before every fitting one that does not. |
| Stream.PickedByRankExactlyWhen | crates/kong-router/src/stream.rs:3-8 | The documented order of SNI before source before destination holds exactly when a fitting route of the highest such rank comes before every fitting one of a lower rank. |
| Stream.DestinationBeatsSource | crates/kong-router/src/stream.rs:155-167 | An older destination route is taken over a newer source route that fits too, in either configured order. |
| Stream.WildcardBeatsExact | crates/kong-router/src/stream.rs:301-318 | An older wildcard takes the request although a newer route names the host exactly, in either configured order. |
| Cidr.InCidrExactlyWhen | crates/kong-router/src/stream.rs:335-363 | An address is in a block exactly when families match, the length fits and the leading bits agree (section 3.1 of RFC 4632). |
| Cidr.NestedOrDisjoint | crates/kong-router/src/stream.rs:335-363 | Two blocks with a common address are nested. |
| Cidr.TestsAgreeExactlyWhen | crates/kong-proxy/src/lib.rs:2949-2981 | The proxy's membership test and the router's agree for lengths from 1 to the width and across families; beyond the width only on different addresses; for 0 only on equal ones and without overflow checks. |
| Dispatch.Proxy.TryWithAsyncLifecycleHooks | crates/kong-proxy/src/lib.rs:267-290 | Assembly succeeds exactly when every fail-closed hook has a compensator of its domain, and changes nothing otherwise. |
| Dispatch.Proxy.RunHooks | crates/kong-proxy/src/lib.rs:304-364 | Every hook is called once and in order on the context the one before left; the abort recorded is the first stopping hook's. |
| Dispatch.Proxy.RunCompensators | crates/kong-proxy/src/lib.rs:366-408 | Every compensator is called once and in order after the flag is set and the root failure fixed, and the root failure is put back. |
| Dispatch.Proxy.RunDispatchHooks | crates/kong-proxy/src/lib.rs:304-408 | The whole protocol makes exactly the calls and leaves exactly the context specified, for arbitrary hooks and compensators. |
| Dispatch.EnvelopeIdentifiesFailure | crates/kong-proxy/src/lib.rs:66-106 | In every envelope format two failures read the same exactly when code and message agree (and, for OpenAI, the class of the status); only the Anthropic envelope depends on the request id. |
| Dispatch.AllowedExactlyWhenNoneStops | crates/kong-proxy/src/lib.rs:304-368 | From a fresh context every hook runs, and dispatch is allowed exactly when none failed closed, short-circuited or forbade. |
| Dispatch.NoHooksAllowsShortCircuited | crates/kong-proxy/src/lib.rs:304-368 | Without hooks the forbidden flag decides alone. |
| Dispatch.AbortIsCompensated | crates/kong-proxy/src/lib.rs:66-408 | A stopped request: the cause names the earliest stopping hook and how it stopped; all compensators get that cause, one of the hook's domain among them if it fails closed, the first with dispatch forbidden; the client sees what was fixed before compensation, by default status 503 with code and message in the envelope of the request's format. |
| Dispatch.CompensatorsCannotRewrite | crates/kong-proxy/src/lib.rs:374-407 | Verdict, status, body and headers are the same under any two sets of compensators. |
| Dispatch.ForbiddenThroughoutExactlyWhen | crates/kong-proxy/src/lib.rs:369-400 | In a stopped request the flag is set at every compensator's call and at the end exactly when every compensator called left it set on the context it was given. |
| Dispatch.CompensatorsKeepFlagExactlyWhen | crates/kong-proxy/src/lib.rs:369-400 | From the root failure on the flag stays set in every stopped request, whatever the hooks, exactly when each compensator keeps it on what the ones before it can leave. |
| Dispatch.NeverClearedExactlyWhen | crates/kong-proxy/src/lib.rs:304-400 | After the first stop the flag is set at every later hook's call, at every compensator's call and at the end exactly when every later hook but the last stops the request too and every compensator left the flag set. |
| Dispatch.IrreversibleExactlyWhen | crates/kong-core/src/traits/plugin.rs:321-325 | The documented irreversibility of an assembly holds in every request it stops exactly when, wherever a request is first stopped, its later hooks and its compensators pass the flag on. |
| Dispatch.LaterHookClearsFlag | crates/kong-proxy/src/lib.rs:304-364 | A later hook clears the flag, so that a third is called with it unset, although the compensators find it set. |
| Dispatch.FlagIsReversible | crates/kong-core/src/traits/plugin.rs:321-325 | A compensator can clear the flag documented as irreversible; the request is refused all the same. |
| Dbless.DblessStore.LoadFromJson | crates/kong-db/src/dbless.rs:42-139 | A bad header leaves the store alone; otherwise it holds exactly the configured tables, or on a table that is not an array exactly those before it. |
| Dbless.RejectedExactlyWhen | crates/kong-db/src/dbless.rs:42-58 | A configuration is rejected as a whole exactly when it is no object, its version is no text, or the text is none of 1.1, 2.1 and 3.0. |
| Dbless.StoredAs | crates/kong-db/src/dbless.rs:107-119 | An entity with an id is stored unchanged under it; any other under the generated id, which an object also gets as its id field, its other fields kept. |
| Dbless.IndexedReferences | crates/kong-db/src/dbless.rs:527-536 | The references indexed, table by table. |
| Dbless.EndpointFields | crates/kong-db/src/dbless.rs:77-93 | The look-up fields, table by table. |
| Dbless.RefersExactlyWhen | crates/kong-db/src/dbless.rs:550-560 | A reference is an id's text or an object with that id. |
| Dbless.DblessStore.LoadTable | crates/kong-db/src/dbless.rs:97-136 | The table and both indexes hold exactly the array's rows; other tables are untouched. |
| Dbless.FillTable | crates/kong-db/src/dbless.rs:105-131 | The entity loop stores, keys and indexes every row, a later one with the same id or key replacing an earlier. |
| Dbless.BuildFkIndex | crates/kong-db/src/dbless.rs:522-570 | Exactly the entity's references are appended, each once, and no other entry changes. |
| Dbless.StoredRowsCarryIds | crates/kong-db/src/dbless.rs:107-119 | Objects are stored with their id, given or generated. |
| Dbless.LoadedTableCarriesIds | crates/kong-db/src/dbless.rs:107-131 | With distinct ids every row of the table knows its own id. |
| Dbless.EndpointKeyFindsLast | crates/kong-db/src/dbless.rs:176-191 | With distinct ids a look-up by endpoint key finds the last loaded row with the key, and nothing exactly when there is none. |
| Dbless.ForeignKeyListsReferrers | crates/kong-db/src/dbless.rs:247-312 | With distinct ids listing through the foreign-key index is filtering and sorting the table: every referring row once, ascending, and no other. |
| Dbless.DblessStore.ListEntities | crates/kong-db/src/dbless.rs:194-244 | A page of the table in ascending order of ids, with the offset of the next one if rows remain. |
| Dbless.DblessStore.ListByForeignKey | crates/kong-db/src/dbless.rs:247-312 | The same over the ids the index holds. |
| Dbless.DblessStore.GetPage | crates/kong-db/src/dbless.rs:368-447 | One page, filtered after fetching ten pages' worth if there are filters; fails exactly when a row on it does not decode. |
| Dbless.DblessStore.FollowPages | crates/kong-db/src/dbless.rs:368-447 | Following all offsets terminates; unfiltered it yields every row once, ascending, in max(1, ceil(n/size)) pages; filtered it yields a gapless prefix of the matches. |
| Dbless.DblessStore.SelectByForeignKey | crates/kong-db/src/dbless.rs:467-507 | One page of a listing by foreign key; fails exactly when a row on it does not decode. |
| Dbless.DblessStore.FollowForeignKey | crates/kong-db/src/dbless.rs:467-507 | Following all offsets of a listing by foreign key fails exactly when some referring row does not decode, and otherwise yields every referring row once, ascending, in max(1, ceil(n/size)) pages. |
| Dbless.FilteredListingCompleteExactlyWhen | crates/kong-db/src/dbless.rs:368-447 | A filtered walk yields all matching rows exactly when each page's matches lie within ten pages' worth of rows, and always in a table that small. |
| Paging.WalkVisitsAll | crates/kong-db/src/dbless.rs:194-244 | Following offsets over any ascending list visits each id once, in order, in max(1, ceil(n/size)) pages. |
| Paging.FilteredWalkVisitsAllExactlyWhen | crates/kong-db/src/dbless.rs:368-447 | The filtered walk visits a prefix of the matches, and all of them exactly under the distance condition on their positions. |
| Paging.SmallTablesAreComplete | crates/kong-db/src/dbless.rs:374-380 | At most 10 times size rows are always covered. |
| Paging.LargerTablesMayLoseRows | crates/kong-db/src/dbless.rs:374-425 | For every size a table one row larger on which the filtered walk comes back empty although a row matches. |
| SpillableBuffers.SpillableBuffer.Extend | crates/kong-proxy/src/spillable_buffer.rs:54-99 | Appends without loss unless a write falls short after the move to a file; failures before or during the move keep everything in memory. |
| SpillableBuffers.SpillableBuffer.Finish | crates/kong-proxy/src/spillable_buffer.rs:102-118 | Returns all bytes exactly when they can be read back, and fewer otherwise. |
| SpillableBuffers.HoldsAllExactlyWhen | crates/kong-proxy/src/spillable_buffer.rs:54-99 | Over any run of writes, threshold and failures the buffer holds exactly the bytes written, exactly unless a write falls short after the move. |
| SpillableBuffers.MemoryIsBounded | crates/kong-proxy/src/spillable_buffer.rs:54-99 | While the disk works, memory is used exactly up to the threshold. |
| ResponseBody.ResponseFilter.Filter | crates/kong-proxy/src/lib.rs:2002-2034 | One call of the response filter: hold, release at the end, or pass through. |
| ResponseBody.BufferedIsStreamedExactlyWhen | crates/kong-proxy/src/lib.rs:2002-2034 | For every chunking and threshold buffering emits what streaming would exactly when no file operation fails after the move. |
| ResponseBody.UselessDiskKeepsAll | crates/kong-proxy/src/spillable_buffer.rs:54-99 | A disk on which no file can be created or the first writes fail loses nothing. |
| ResponseBody.NothingBeforeTheEnd | crates/kong-proxy/src/lib.rs:2015-2034 | Nothing is handed on before the end of the stream. |
| RequestBody.RequestFilter.PreloadBody | crates/kong-proxy/src/lib.rs:801-870 | Reads the whole body, keeps it for the filter, and leaves the retry buffer as specified; refuses a chunked body exactly when it is longer than 64 KiB. |
| RequestBody.TruncatedExactlyWhen | crates/kong-proxy/src/lib.rs:848-856 | The retry buffer is truncated by more than 64 KiB exactly, however they are cut into chunks. |
| RequestBody.SmallBodiesStayInMemory | crates/kong-proxy/src/spillable_buffer.rs:54-99 | With a working disk a preloaded body stays in memory exactly up to 10 MiB. |
| RequestBody.ReadAll | crates/kong-proxy/src/lib.rs:824-847 | The read loop switches capture on at the first point with at most 64 KiB to come. |
| RequestBody.CaptureIsUsefulExactlyWhen | crates/kong-proxy/src/lib.rs:831-842 | With a truthful length the capture is the untruncated tail, and not empty exactly when the last non-empty chunk is at most 64 KiB. |
| RequestBody.SmallChunksCapture | crates/kong-proxy/src/lib.rs:831-842 | Chunks of at most 64 KiB switch capture on with 1 to 65536 bytes to come. |
| RequestBody.RequestFilter.Filter | crates/kong-proxy/src/lib.rs:1788-1865 | One call of the request filter, all branches in order. |
| RequestBody.OverrideIsSent | crates/kong-proxy/src/lib.rs:1795-1802 | A plugin's replacement body is sent once, whatever was received. |
| RequestBody.PreloadedBodyArrives | crates/kong-proxy/src/lib.rs:1804-1812 | The body emitted at the end is exactly the bytes read ahead. |
| RequestBody.FilterConservesExactlyWhen | crates/kong-proxy/src/lib.rs:1804-1865 | Buffering a body that was not read ahead sends the first chunk only, so it conserves the body exactly when nothing follows that chunk. |
| RequestBody.TimesOutExactlyWhen | crates/kong-proxy/src/lib.rs:1788-1847 | A stream times out exactly when the filter buffers, was stamped by an earlier stream that left nothing in the buffer, and the first call that is late or carries a body is late. |
| RequestBody.NeverTimesOut | crates/kong-proxy/src/lib.rs:1788-1847 | So from a fresh filter the chunk-interval timeout is unreachable, over every stream and setting. |
| RequestBody.StreamsAll | crates/kong-proxy/src/lib.rs:1814-1827 | Without buffering all chunks pass. |

## Left out

- Machine overflow: weights, counters and sizes are unbounded, except that the round-robin index wraps at 2^64; a weight sum beyond 2^31 or a filter fetch beyond the word size is not modelled.
- Concurrency: atomics and locks are taken as sequential steps; two interleaved `update_plugins` calls, whose rebuilds may publish in either order, are not modelled.
- The route caches in front of both HTTP routers: their keys omit parts of the request, so a cached answer may differ from the uncached one that is modelled here.
- Expression router: the service, name and protocol lists carried in the match result.
- Unicode: header names in expressions are lower-cased in ASCII only; case folding elsewhere is a parameter. Host names in a ClientHello are bytes with the UTF-8 test modelled in full.
- Which of several ring nodes with equal hashes the library's search returns is not specified; the model bisects, and the stability of a key's target needs only that the choice is a function of ring and hash.
- Connection counts: `increment_connections` and `decrement_connections` are not modelled; selection is proved for arbitrary counts.
- Active health probes and target re-registration during a run: the health theorems are about reports since registration.
- Traditional router: a literal port in a configured host and the service, name and capture lists carried in the match result are not modelled; neither is the capture list of a regular expression.
- Stream router: the service, name and protocol lists carried in the match result.
- Coverage index: the three configuration validators are parameters; the unavailable index is only a constructor.
- Dispatch: the plugin list handed to hooks is fixed data and is left out; the termination hint recorded for logging and the text rendering of the error envelopes are not modelled; request finalizers are a plain loop.
- In-memory store: JSON and YAML parsing, the textual offset token, and the `next` URL; a failed lock; non-object rows are stored but carry no id. `FollowPages` is the client's loop, not the store's.
- Request preload: a read error ends the read loop early and is not modelled; the session's fixed retry buffer belongs to a library and is modelled as appending whole chunks until one does not fit.
- Response filter: plugin body filters and deferred header filters that run after buffering.
- Coverage.AgreesWithResolver: assumes unique ids per table, as the database guarantees; with duplicates the by-id maps keep the last entry and the index reports for that one.
- Dbless.ForeignKeyListsReferrers: assumes distinct ids within the table; a repeated id stays in the index under every reference it ever had.
- Dbless.DblessStore.FollowPages: assumes that rows know their ids and decode, as rows loaded from objects of the right type do.
- Balancer.RunIsFair: consecutive picks are taken without the index wrapping around within the run.
- Config parsing, certificate selection, clustering, budgets, Lua, DNS, TLS handshakes, the admin API and the manager UI: input and output, or simple members.
