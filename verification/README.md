# ESPv2 path matching, service control and token refresh, verified

A Dafny model of the parts of the ESPv2 proxy that decide what a request is and
what happens to it, with proofs about every input, every run and every reachable
state. `dafny verify dfyconfig.toml` checks everything.

**Path matcher** (`src/api_proxy/path_matcher`). Templates such as
`/shelves/{shelf}/books/{book=**}:archive` are parsed by a hand-written
recursive-descent parser, stored in a trie that is built in place, and requests
are found in it by a depth-first search that prefers literals to `*` to `**`.

- `TemplateGrammar` has the syntax trees, their printed form and a scanner, and
  proves scanning and printing inverse both ways. `TemplateParsers` is the parser
  object with its lookahead positions, proved against the scanner; its invariant
  is `tb <= te <= tb + 1 <= |input| + 1`, and it terminates on every string.
- `PathTrie` has insertion and search on the trie as a value, and two definitions
  that know nothing of tries: `Matches` (which key paths fit a request) and
  `Precedes` (which of two is preferred). The search is proved to return exactly
  the answer of the best match. `PathMatcherNodes` is the mutable trie, proved to
  compute the same.
- `Bindings` is the index arithmetic that recovers variable values, `RequestPaths`
  the splitting of request paths, `PercentEncoding` the decoding.
- `PathMatchers` puts them together: `Register` and `Lookup`, from strings to
  strings, said of the registrations alone.

**Service control** (`src/envoy/http/service_control`). `HttpCalls` is a remote
call with retries and cancellation, and the factory that tracks unfinished calls.
`ServiceControl` is the life of a request through filter, handler and check call
as a state machine whose runs are arbitrary interleavings of headers, replies,
failures and destruction; `ServiceControlFilters` is the same as objects that
update their fields and call each other. `Reports` is which metrics and log
entries go into which report of a stream.

Each of these objects, and the token subscriber, carries its history as ghost
state. `Valid()` says that the object is where that history, a run of its state
machine, ends; every method keeps it, so what is proved of every run holds of the
objects (`OneJustifiedOutcome`, `CallNeverCompletesTwice`, `CompletesOnce`,
`TracksItsCalls`, `Conserves`, `NeverStalls`).

**Token refresh** (`src/envoy/token`). `TokenSubscribers` is the refresh loop.

The environment appears as parameters and events: the asynchronous HTTP client
answers a request in flight at most once and not after it was cancelled; the
service control client answers a check from its cache or by a remote call, and a
quota call at once; clock readings are arbitrary integers.

Where code and comments disagree, the code is followed: `Register` is documented
to keep the last registration, and keeps the first.

Four promises do not hold as stated. Each has an example and its exact condition:

- A variable that starts after `**` is bound by absolute position. It gets the
  parts its own sub-template matched if and only if `**` took exactly one part
  (`BoundAsMatchedIff`, with the example `LateVariableMisbound`).
- The verb is not validated, so `*` and `**` are accepted as verbs. The search
  finds a template on exactly the requests it matches if and only if its verb does
  not spoil it: a `**` segment with verb `**`, or a `**` segment, constants and
  verb `*` (`SearchAgreesIff`, with the example `VerbWildcardMatchesMore`). Index
  safety of the bindings holds regardless.
- A remote call invokes its done function at most once if and only if it is never
  cancelled after completing uncancelled (`AtMostOnceIff`, with the example
  `LateCancelCompletesTwice`); the handler keeps that rule in every run
  (`CancelOnlyUnfinished`).
- A registration affects more request paths than it matches: a new verb changes
  the parts of exactly the paths that end in it (`AcceptedChangesOnlyRequests`,
  with the examples `NewVerbChangesOthers`).

## Model

| member | source | states |
|---|---|---|
| `PathTrie.InsertFind` | src/api_proxy/path_matcher/path_matcher_node.cc:193-215 | inserting changes the entry of its own key path and method only; an entry already there keeps its data and is marked |
| `PathTrie.ReachesMatches` | src/api_proxy/path_matcher/path_matcher_node.cc:137-175 | what the search can reach on a request is what the key path means: keys before `**` fit one to one, `**` takes the rest and at least one part if keys follow, keys after it are the last parts |
| `PathTrie.ReachesMatchesIff` | src/api_proxy/path_matcher/path_matcher_node.cc:137-175 | the search reaches a key path on exactly the requests it matches if and only if, after its first `**`, the first key is not `**` and the others are constants |
| `PathTrie.MatchesForms` | src/api_proxy/path_matcher/path_matcher_node.cc:137-175 | what matching means in terms of splitting the request: key by key without `**`; with `**`, parts for the keys before it, parts for `**` (at least one if keys follow) and the keys after it themselves |
| `PathTrie.SearchFindsMatch` | src/api_proxy/path_matcher/path_matcher_node.cc:137-175 | the search finds something if and only if a stored key path matches and has an answer for the method or for every method |
| `PathTrie.SearchReturnsBest` | src/api_proxy/path_matcher/path_matcher_node.cc:155-174 | what it returns is the answer of the matching key path that precedes all others: literal, then `/.`, then `*`, then `**` at the first difference, ending before a trailing `**`, longest suffix after a shared `**` |
| `PathTrie.PrecedesAsymmetric` | src/api_proxy/path_matcher/path_matcher_node.cc:168-174 | of two key paths at most one precedes the other, so the best is unique |
| `PathTrie.PrecedesAfter` | src/api_proxy/path_matcher/path_matcher_node.cc:155-174 | after any shared keys the part itself precedes `/.`, that `*`, that `**`; the end precedes `**`, and past `**` the longer path precedes |
| `PathTrie.SearchBest` | src/api_proxy/path_matcher/path_matcher_node.cc:137-175 | with no condition on the stored key paths: the returned answer belongs to a reachable key path that is tried before every other reachable one with an answer |
| `PathTrie.SearchSome` | src/api_proxy/path_matcher/path_matcher_node.cc:217-229 | backtracking never misses a reachable key path with an answer |
| `PathTrie.SearchDependsOnReachable` | src/api_proxy/path_matcher/path_matcher_node.cc:137-175 | tries that agree on the reachable answers give the same result |
| `PathTrie.InsertLeavesOthers` | src/api_proxy/path_matcher/path_matcher_node.cc:193-215 | an insertion changes no lookup that its key path does not reach or its method does not answer |
| `PathTrie.InsertDuplicate` | src/api_proxy/path_matcher/path_matcher_node.cc:197-206 | inserting a taken key path and method changes the data of no lookup |
| `PathMatcherNodes.PathMatcherNode.constructor` | src/api_proxy/path_matcher/path_matcher_node.h:114 | a new node is the empty trie |
| `PathMatcherNodes.PathMatcherNode.GetResultForHttpMethod` | src/api_proxy/path_matcher/path_matcher_node.cc:231-240 | the result of the exact method, or else of every method |
| `PathMatcherNodes.PathMatcherNode.LookupPath` | src/api_proxy/path_matcher/path_matcher_node.cc:137-175 | the search over the nodes computes the search over the trie's value |
| `PathMatcherNodes.PathMatcherNode.LookupPathFromChild` | src/api_proxy/path_matcher/path_matcher_node.cc:217-229 | the same below one child, nothing if the child is missing |
| `PathMatcherNodes.PathMatcherNode.LookupOrInsertNew` | src/api_proxy/path_matcher/path_matcher_node.cc:58-70 | the child for a key, created empty if missing, with the other children kept |
| `PathMatcherNodes.PathMatcherNode.InsertTemplate` | src/api_proxy/path_matcher/path_matcher_node.cc:193-215 | the nodes hold the inserted trie, still own disjoint children, and the result says whether the entry was free |
| `TemplateGrammar.ParseInvertsPrint` | src/api_proxy/path_matcher/http_template.cc:76-245 | a string parses to a syntax tree if and only if it is that tree's printed form and the tree is well-formed |
| `TemplateGrammar.TemplateSound` | src/api_proxy/path_matcher/http_template.cc:76-192 | what was consumed is the printed form of what was parsed |
| `TemplateGrammar.TemplateComplete` | src/api_proxy/path_matcher/http_template.cc:76-192 | every well-formed tree's printed form parses back to it |
| `HttpTemplates.AcceptsExactlyPrinted` | src/api_proxy/path_matcher/http_template.cc:368-380 | the accepted strings are `/` and the printed forms of well-formed trees with constants only after `**`, each with the segments, verb and variables of its tree |
| `PathTrie.ShapeMeans` | src/api_proxy/path_matcher/http_template.cc:58-72 | what is accepted after a `**`, anywhere later: neither `*` nor `**` |
| `HttpTemplates.FieldPathMeansStar` | src/api_proxy/path_matcher/http_template.cc:147-155 | every template means what it means with each `{f}` written out as `{f=*}`, and so do the two texts |
| `HttpTemplates.RootText` | src/api_proxy/path_matcher/http_template.cc:368-372 | `/` is a template without segments |
| `HttpTemplates.FieldText` | src/api_proxy/path_matcher/http_template.cc:194-215 | `/{id}` is accepted for every non-empty id free of `.`, `}` and `=`, with key `*` and field path id |
| `HttpTemplates.LiteralText` | src/api_proxy/path_matcher/http_template.cc:217-245 | every literal free of `/`, `:` and `}` that does not start with `*` or `{` is accepted and its own key, with or without a verb |
| `HttpTemplates.PatternText` | src/api_proxy/path_matcher/http_template.cc:76-192 | the template of a text with all the punctuation: literal, dotted field path, sub-template with `**`, verb, and the negative end |
| `HttpTemplates.TemplateWellPlaced` | src/api_proxy/path_matcher/http_template.cc:278-344 | parsed variables are in order, disjoint, non-empty and inside the segments; exactly the one with `**`, of which there is at most one, has a negative end |
| `HttpTemplates.VariablesAreWritten` | src/api_proxy/path_matcher/http_template.cc:138-163 | before the ends are made relative, the recorded variables are the ones written, in order, with their field paths, each from the number of keys before it to that plus its own |
| `HttpTemplates.TemplateVariables` | src/api_proxy/path_matcher/http_template.cc:327-344 | the variables of an accepted template are those written in it, in order and with their field paths; each starts after the keys before it, ends after its own keys or, with `**`, at minus the number of keys after it (the verb included) minus one, and its range of the key path is exactly its sub-template's keys |
| `HttpTemplates.VariableIndicesComplete` | src/api_proxy/path_matcher/http_template.cc:138-163 | the written variables are all the variable segments, each once |
| `HttpTemplates.SearchAgreesIff` | src/api_proxy/path_matcher/http_template.cc:58-72 | an accepted template is reached by the search on exactly the requests its key path matches if and only if it does not combine a `**` segment with verb `**`, or with verb `*` after at least one constant |
| `HttpTemplates.VerbWildcardMatchesMore` | src/api_proxy/path_matcher/path_matcher_node.cc:142-154 | with segment `**` and verb `**` the search ends on a request the key path does not match |
| `TemplateParsers.Parser.constructor` | src/api_proxy/path_matcher/http_template.cc:42-43 | nothing consumed, nothing collected |
| `TemplateParsers.Parser.NextChar` | src/api_proxy/path_matcher/http_template.cc:262-269 | extends the lookahead by one unless the input is exhausted |
| `TemplateParsers.Parser.EnsureCurrent` | src/api_proxy/path_matcher/http_template.cc:260 | there is a current character exactly when input is left |
| `TemplateParsers.Parser.CurrentChar` | src/api_proxy/path_matcher/http_template.cc:272-274 | the character looked at is the next one to consume |
| `TemplateParsers.Parser.Consume` | src/api_proxy/path_matcher/http_template.cc:247-256 | consumes the character exactly when the input left starts with it |
| `TemplateParsers.Parser.StartVariable` | src/api_proxy/path_matcher/http_template.cc:278-289 | opens a variable at the current segment unless one is open |
| `TemplateParsers.Parser.EndVariable` | src/api_proxy/path_matcher/http_template.cc:291-300 | closes the variable, valid with a field path and at least one segment |
| `TemplateParsers.Parser.AddFieldIdentifier` | src/api_proxy/path_matcher/http_template.cc:302-310 | appends to the open variable's field path |
| `TemplateParsers.Parser.MarkVariableHasWildCardPath` | src/api_proxy/path_matcher/http_template.cc:312-320 | marks the open variable |
| `TemplateParsers.Parser.ParseIdentifier` | src/api_proxy/path_matcher/http_template.cc:194-215 | takes the longest run without `.`, `}` and `=`, and fails on an empty one; entered with no lookahead |
| `TemplateParsers.Parser.ParseLiteral` | src/api_proxy/path_matcher/http_template.cc:217-245 | takes the longest run without `/`, `:` and `}`, and fails on an empty one |
| `TemplateParsers.Parser.ParseFieldPath` | src/api_proxy/path_matcher/http_template.cc:175-185 | agrees with the scanner on success, input left and field path |
| `TemplateParsers.Parser.ParseVerb` | src/api_proxy/path_matcher/http_template.cc:188-192 | agrees with the scanner on success, input left and verb |
| `TemplateParsers.Parser.ParseSegments` | src/api_proxy/path_matcher/http_template.cc:94-107 | agrees with the scanner on success, input left, segments and variables; refuses a variable in a variable |
| `TemplateParsers.Parser.ParseSegment` | src/api_proxy/path_matcher/http_template.cc:110-135 | the same for one segment |
| `TemplateParsers.Parser.ParseVariable` | src/api_proxy/path_matcher/http_template.cc:138-163 | the same for a variable, with `{f}` collecting what `{f=*}` does (`FieldPathMeansStar`); closing it never fails on segments that parsed |
| `TemplateParsers.Parser.ParseTemplate` | src/api_proxy/path_matcher/http_template.cc:76-91 | collects exactly the segments, verb and variables of the syntax tree |
| `TemplateParsers.Parser.PostProcessVariables` | src/api_proxy/path_matcher/http_template.cc:327-344 | makes the ends of variables with `**` relative to the end and leaves the others |
| `TemplateParsers.Parser.Parse` | src/api_proxy/path_matcher/http_template.cc:45-51 | succeeds exactly on printed syntax trees and yields their meaning |
| `TemplateParsers.Parser.ValidateParts` | src/api_proxy/path_matcher/http_template.cc:58-72 | true exactly when nothing but constants follows the first `**` |
| `TemplateParsers.ParseHttpTemplate` | src/api_proxy/path_matcher/http_template.cc:368-380 | the template of the string, or none |
| `PercentEncoding.HexDigitToInt` | src/api_proxy/path_matcher/path_matcher.cc:61-68 | the value of a hex digit in either case |
| `PercentEncoding.GetEscapedChar` | src/api_proxy/path_matcher/path_matcher.cc:78-92 | finds an escape to decode, and is one step of the decoding |
| `PercentEncoding.NeedsUnescaping` | src/api_proxy/path_matcher/path_matcher.cc:100-112 | the early exit is taken only when the part is its own decoding |
| `PercentEncoding.UrlUnescapeString` | src/api_proxy/path_matcher/path_matcher.cc:97-131 | both ways out give the decoded part, and the buffer is never overrun |
| `PercentEncoding.UnescapeInto` | src/api_proxy/path_matcher/path_matcher.cc:114-130 | the decoding loop fills a buffer as long as the part with the decoded part and never overruns it |
| `PercentEncoding.UnescapeEncode` | src/api_proxy/path_matcher/path_matcher.cc:97-131 | decoding a fully encoded byte string gives it back, or leaves exactly the reserved characters encoded |
| `PercentEncoding.OwnDecoding` | src/api_proxy/path_matcher/path_matcher.cc:53-63 | a string is its own full decoding if and only if no `%` is followed by two of the 22 hexadecimal digits, and is then left alone in either mode |
| `PercentEncoding.DelimitersStayEncoded` | src/api_proxy/path_matcher/path_matcher.cc:25-51 | exactly the general and sub-delimiters of RFC 3986 stay encoded in reserved-preserving mode |
| `PercentEncoding.ReservedPreserved` | src/api_proxy/path_matcher/path_matcher.cc:84-86 | in reserved-preserving mode each reserved character occurs as often as it did raw |
| `PercentEncoding.MultipartSplits` | src/api_proxy/path_matcher/path_matcher.cc:151-167 | a multi-part value splits on `/` back into exactly its decoded parts |
| `RequestPaths.ExtractRequestParts` | src/api_proxy/path_matcher/path_matcher.cc:172-199 | cuts the query, splits off a registered verb after the last slash, splits at slashes, strips trailing empty parts |
| `RequestPaths.PartsRoundTrip` | src/api_proxy/path_matcher/path_matcher.cc:172-199 | parts survive with trailing slashes always, without them if and only if the last part does not end in a registered verb, whatever the query |
| `RequestPaths.VerbRoundTrip` | src/api_proxy/path_matcher/path_matcher.cc:177-188 | a registered verb after the last part becomes a part of its own |
| `RequestPaths.RootRoundTrip` | src/api_proxy/path_matcher/path_matcher.cc:190-198 | a path of slashes has no parts |
| `RequestPaths.FirstCharDropped` | src/api_proxy/path_matcher/path_matcher.cc:190-193 | the first character is dropped whatever it is; a path without any other slash is one part, verb or not |
| `RequestPaths.AnotherVerb` | src/api_proxy/path_matcher/path_matcher.cc:177-188 | one more custom verb leaves the parts of a path as they are if and only if it was one before or the path does not end in it |
| `Bindings.ExtractBindingsFromPath` | src/api_proxy/path_matcher/path_matcher.cc:135-170 | one binding per variable, in order, each the `/`-join of the variable's parts, decoded as its multi-part status says |
| `Bindings.BindingsInRange` | src/api_proxy/path_matcher/path_matcher.cc:147-157 | for every accepted template and every request whose search ends at it, start <= end <= number of parts, so no unsigned subtraction wraps |
| `Bindings.BoundAsMatchedIff` | src/api_proxy/path_matcher/path_matcher.cc:140-157 | a variable gets the parts its sub-template matched if and only if it starts no later than `**` or `**` took exactly one part |
| `Bindings.BindingCorrect` | src/api_proxy/path_matcher/path_matcher.cc:139-168 | such a variable's value is the join of a slice its keys match, between slices the keys before and after it match |
| `Bindings.WrittenVariableBound` | src/api_proxy/path_matcher/path_matcher.cc:139-168 | from the template's text: a variable with no `**` written before it (or on a request where `**` took one part) gets its field path and the join of exactly the parts its written sub-template matched, between parts matched by the segments written before it and those after it with the verb |
| `Bindings.BindDecoded` | src/api_proxy/path_matcher/path_matcher.cc:151-167 | a decoded single part is decoded in full; a decoded value of several parts or of a `**` splits back into its parts, reserved characters kept |
| `Bindings.LateVariableMisbound` | src/api_proxy/path_matcher/path_matcher.cc:148-157 | a variable after `**` that is bound to a part it did not match |
| `PathMatchers.PathMatcher.constructor` | src/api_proxy/path_matcher/path_matcher.h:229-231 | no registrations |
| `PathMatchers.PathMatcher.Register` | src/api_proxy/path_matcher/path_matcher.h:240-267 | records the registration and succeeds exactly when the template is valid and the first of its key path and method |
| `PathMatchers.PathMatcher.LookupRequest` | src/api_proxy/path_matcher/path_matcher.h:174-202 | safely for every registration history and request: the operation of one counting registration and as many bindings as its text has variables; with no template spoilt by its verb, nothing if and only if none answers, and otherwise the preferred registration with every binding its text asks for |
| `PathMatchers.TransformHttpTemplate` | src/api_proxy/path_matcher/path_matcher.cc:209-220 | the key path is the segments followed by the verb, if any |
| `PathMatchers.HoldsCounting` | src/api_proxy/path_matcher/path_matcher.h:251-266 | every valid, first-of-its-kind registration is in the trie with its operation, its body field path and all its variables |
| `PathMatchers.OnlyCounting` | src/api_proxy/path_matcher/path_matcher.h:251-266 | and nothing else is |
| `PathMatchers.AcceptedCounts` | src/api_proxy/path_matcher/path_matcher.h:258-260 | a registration is accepted if and only if it is valid and no earlier one has its key path and method |
| `PathMatchers.VerbsOfCounting` | src/api_proxy/path_matcher/path_matcher.h:263-265 | the custom verbs are exactly the verbs of the counting registrations |
| `PathMatchers.RegisteredVerbRecognised` | src/api_proxy/path_matcher/path_matcher.h:178-179 | a registered verb is split off every request that ends in it |
| `PathMatchers.LookupFindsMatch` | src/api_proxy/path_matcher/path_matcher.h:188-194 | after any registrations a lookup finds nothing if and only if no counting registration matches under the method or every method |
| `PathMatchers.LookupFindsBest` | src/api_proxy/path_matcher/path_matcher.h:188-201 | otherwise it finds the registration preferred to every other that answers: better key path, then exact method |
| `PathMatchers.LookupBindsMatched` | src/api_proxy/path_matcher/path_matcher.h:195-200 | over registered template texts: one binding for each variable written in the preferred registration's text, in order and with its field path, and if no `**` is written before it (or `**` took one part) with the join of exactly the parts its written sub-template matched |
| `PathMatchers.LookupInRange` | src/api_proxy/path_matcher/path_matcher.h:188-200 | with or without spoilt templates a lookup leads to one registration, all of whose written variables can be bound inside the parts |
| `PathMatchers.LiteralTemplateAnswersItself` | src/api_proxy/path_matcher/path_matcher.h:174-202 | a registered template of literals, with or without a verb, answers the request for its own text |
| `PathMatchers.SpellingIsRefused` | src/api_proxy/path_matcher/path_matcher.h:258-260 | of two texts that differ in `{f}` and `{f=*}` the second is refused under the same method |
| `PathMatchers.RejectedChangesNothing` | src/api_proxy/path_matcher/path_matcher.h:258-260 | a rejected registration changes no lookup, no custom verb and no method data |
| `PathMatchers.AcceptedChangesOnlyMatches` | src/api_proxy/path_matcher/path_matcher.h:258-266 | an accepted one changes lookups only of parts it matches under methods it answers |
| `PathMatchers.AcceptedChangesOnlyRequests` | src/api_proxy/path_matcher/path_matcher.h:258-266 | on request paths: the parts stay as they were if and only if the verb was registered before or the path does not end in it, and then only matching requests under answered methods change |
| `PathMatchers.NewVerbChangesOthers` | src/api_proxy/path_matcher/path_matcher.h:263-265 | after `/*`, registering a literal with a new verb makes every one-part request ending in this verb disappear, though the new template does not match it |
| `HttpCalls.HttpCallImpl.DoOneCall` | src/envoy/http/service_control/http_call.cc:159-191 | counts the attempt, and completes with an error at once without a token |
| `HttpCalls.HttpCallImpl.AttemptRetry` | src/envoy/http/service_control/http_call.cc:140-157 | retries unless it is a client error or no retries are left |
| `HttpCalls.HttpCallImpl.OnSuccess` | src/envoy/http/service_control/http_call.cc:73-111 | 200 completes with OK, other codes are retried or complete with an error, as does a missing status |
| `HttpCalls.HttpCallImpl.OnFailure` | src/envoy/http/service_control/http_call.cc:113-137 | a network failure is retried or completes with an error |
| `HttpCalls.HttpCallImpl.CancelCall` | src/envoy/http/service_control/http_call.cc:193-212 | the first cancellation drops the request and completes with CANCELLED |
| `HttpCalls.HttpCallImpl.OnEvent` | src/envoy/http/service_control/http_call.cc:69-212 | whatever the environment does next, the object stays where its history takes a new call |
| `HttpCalls.HttpCallImpl.CompletesOnce` | src/envoy/http/service_control/http_call.cc:73-212 | of the object: done at most once if and only if never cancelled after completing by itself, and then its attempts and what done was invoked with are those its history calls for |
| `HttpCalls.CallRuns` | src/envoy/http/service_control/http_call.cc:73-212 | over every run: done at most once, a started call is done or in flight and not both, attempts plus remaining retries is configured retries plus one |
| `HttpCalls.CallExplained` | src/envoy/http/service_control/http_call.cc:73-212 | over every run, from the events alone: attempts are the start and one for each retryable answer while retries last; done is CANCELLED once cancelled, OK after a 200, an error after a final answer, without retries left or without a token, and nothing otherwise |
| `HttpCalls.OkOnlyAfter200` | src/envoy/http/service_control/http_call.cc:90-93 | done is OK only when the last event was a 200 |
| `HttpCalls.ClientErrorEnds` | src/envoy/http/service_control/http_call.cc:141-144 | a 4xx is never retried |
| `HttpCalls.FinishedStays` | src/envoy/http/service_control/http_call.cc:193-212 | a completed call changes no more |
| `HttpCalls.AtMostOnceIff` | src/envoy/http/service_control/http_call.cc:193-212 | with cancellations at any time, done at most once if and only if none comes after an uncancelled completion |
| `HttpCalls.LateCancelCompletesTwice` | src/envoy/http/service_control/http_call.cc:193-212 | a run with such a cancellation, in which done is invoked with OK and then CANCELLED |
| `HttpCalls.HttpCallFactory.CreateHttpCall` | src/envoy/http/service_control/http_call.cc:301-321 | a new call is active |
| `HttpCalls.HttpCallFactory.OnEvent` | src/envoy/http/service_control/http_call.cc:308-318 | the object follows its history; a call that completes leaves the active calls |
| `HttpCalls.HttpCallFactory.DeliverTo` | src/envoy/http/service_control/http_call.cc:308-318 | the done function takes a call off the active ones except during destruction |
| `HttpCalls.HttpCallFactory.Destroy` | src/envoy/http/service_control/http_call.cc:323-328 | cancels exactly the active calls, each once, in any order |
| `HttpCalls.FactoryRuns` | src/envoy/http/service_control/http_call.cc:301-328 | over every run of a factory with any number of calls: the active calls are the created and unfinished ones until destruction, after which every call is done exactly once |
| `HttpCalls.CallsAreIndependent` | src/envoy/http/service_control/http_call.cc:301-328 | each call of a factory is where its own events, and a cancellation on destruction if it is not done, take a new call |
| `HttpCalls.HttpCallFactory.TracksItsCalls` | src/envoy/http/service_control/http_call.cc:301-328 | the same two of the factory object |
| `ServiceControl.OneOutcome` | src/envoy/http/service_control/filter.cc:44-96 | over every run: one outcome per verdict, at most one, counted once as allowed or denied, missing only while the check call is in flight |
| `ServiceControl.CompleteIsJustified` | src/envoy/http/service_control/handler_impl.cc:147-240 | let through only if configured, with the required check answered OK and an API key, and the required quota answered OK; quota never before the check's OK |
| `ServiceControl.CancelOnlyUnfinished` | src/envoy/http/service_control/handler_impl.cc:183-195 | the handler can cancel exactly while its check call is unfinished, so the call completes at most once |
| `ServiceControl.HeldBackUntilOutcome` | src/envoy/http/service_control/filter.cc:98-118 | over every run data and trailers are held back exactly when headers were seen and no outcome was emitted, and then a check call is in flight |
| `ServiceControl.DestroyDecides` | src/envoy/http/service_control/handler_impl.cc:103-108 | destroying a waiting request completes its call and gives a verdict: through if the client fails open and quota allows, denied otherwise |
| `ServiceControl.EveryRunExplained` | src/envoy/http/service_control/handler_impl.cc:147-240 | over every run the observable calls, answers and outcome, in order, are exactly those the configuration requires and the one outcome is the verdict on the answers |
| `ServiceControl.EveryRunFollowsSettings` | src/envoy/http/service_control/handler_impl.h:76-86 | over every run, from the configuration fields: no check where a key is not needed or service control is skipped, no quota call without costs, UNAUTHENTICATED for a missing key that is needed and NOT_FOUND without configuration; let through only with each call the fields ask for answered OK, denied by an answer with its code; continued in `decodeHeaders` or, if stopped, later; and the status kept for reports |
| `ServiceControl.HeadersDecide` | src/envoy/http/service_control/filter.cc:44-66 | what the headers lead to: a verdict on the spot by the answer given at once, or a first attempt in flight |
| `ServiceControl.ReplyDecides` | src/envoy/http/service_control/client_cache.cc:279-318 | what each reply to a waiting request leads to: the body's answer, a retry, or the fail-open rule |
| `ServiceControl.FailureDecides` | src/envoy/http/service_control/http_call.cc:113-137 | the same for a network failure: a retry or the fail-open rule |
| `ServiceControlFilters.ServiceControlFilter.DecodeHeaders` | src/envoy/http/service_control/filter.cc:44-66 | the objects begin a history with the headers, with a new handler and report stream, and iteration continues exactly when the request is complete |
| `ServiceControlFilters.ServiceControlFilter.OnCheckDone` | src/envoy/http/service_control/filter.cc:68-84 | counts and lets through, continuing decoding if it was stopped, or rejects |
| `ServiceControlFilters.ServiceControlFilter.RejectRequest` | src/envoy/http/service_control/filter.cc:86-96 | counts the denial and sends the local reply |
| `ServiceControlFilters.ServiceControlFilter.DecodeData` | src/envoy/http/service_control/filter.cc:98-109 | data is held back if and only if headers were seen and no outcome was emitted in the history so far, with a cancellable call in flight; data that is not the last reaches the report stream |
| `ServiceControlFilters.ServiceControlFilter.OnDestroy` | src/envoy/http/service_control/filter.cc:37-42 | the history goes on with the destruction, after which nothing is left to cancel |
| `ServiceControlFilters.ServiceControlFilter.OnCheckReply` | src/envoy/http/service_control/client_cache.cc:279-296 | the history goes on with the reply |
| `ServiceControlFilters.ServiceControlFilter.OnCheckFailure` | src/envoy/http/service_control/http_call.cc:113-137 | and with a network failure |
| `ServiceControlFilters.ServiceControlFilter.OneJustifiedOutcome` | src/envoy/http/service_control/filter.cc:44-96 | of the objects at any time: at most one outcome, counted as allowed or denied; the trace is the one the configuration fields and the answers determine |
| `ServiceControlFilters.ServiceControlFilter.CallNeverCompletesTwice` | src/envoy/http/service_control/handler_impl.cc:183-195 | the handler object can cancel exactly while its call object is unfinished, so the call's own history has no late cancellation and it completes at most once |
| `ServiceControlFilters.ServiceControlHandlerImpl.CallCheck` | src/envoy/http/service_control/handler_impl.cc:147-195 | not found, no check, no key, or a check call, in that order (`EveryRunFollowsSettings` says what follows from each setting) |
| `ServiceControlFilters.ServiceControlHandlerImpl.MakeCheckCall` | src/envoy/http/service_control/handler_impl.cc:183-194 | the cancel function is dropped if the answer came before the client returned |
| `ServiceControlFilters.ServiceControlHandlerImpl.ClientCheck` | src/envoy/http/service_control/client_cache.cc:271-322 | an answer from the cache, or a remote call that can be cancelled |
| `ServiceControlFilters.ServiceControlHandlerImpl.OnCheckDoneLambda` | src/envoy/http/service_control/handler_impl.cc:186-191 | clears the cancel function before anything else and goes on to quota on OK |
| `ServiceControlFilters.ServiceControlHandlerImpl.CallQuota` | src/envoy/http/service_control/handler_impl.cc:198-219 | the quota answer, where required, becomes the verdict |
| `ServiceControlFilters.ServiceControlHandlerImpl.OnCallEvent` | src/envoy/http/service_control/client_cache.cc:279-296 | the handler is told exactly when the remote call completes |
| `ServiceControlFilters.ServiceControlHandlerImpl.OnDestroy` | src/envoy/http/service_control/handler_impl.cc:103-108 | cancels through the normal completion, once |
| `Reports.FillReportRequest` | src/api_proxy/service_control/request_builder.cc:1198-1261 | start metrics in the first report, final metrics and logs in the final one, intermediate ones always; consumer metrics only with a usable key |
| `Reports.AppendByConsumerOperations` | src/api_proxy/service_control/request_builder.cc:1263-1302 | a second operation with exactly the due producer-by-consumer metrics |
| `Reports.ReportContents` | src/api_proxy/service_control/request_builder.cc:1213-1302 | for every metric, how often it is in each operation of a report: settable, known operation, start metrics only in a first report and final ones only in a final one, the consumer's with a usable key, those by consumer in an operation of their own; log entries in a final report |
| `Reports.ChosenInOrder` | src/api_proxy/service_control/request_builder.cc:1230-1247 | metrics keep their order |
| `Reports.ReportingHandler.TryIntermediateReport` | src/envoy/http/service_control/handler_impl.cc:330-356 | reports for gRPC when the interval has passed, and then is no longer first |
| `Reports.ReportingHandler.CallReport` | src/envoy/http/service_control/handler_impl.cc:248-328 | the final report carries the first flag as it stands |
| `Reports.FirstAndFinal` | src/envoy/http/service_control/handler_impl.cc:325-356 | over every stream exactly the first report is marked first and exactly the last final |
| `Reports.RequestCountOnce` | src/api_proxy/service_control/request_builder.cc:1230-1302 | over every stream a start metric selected once is reported exactly once if the first report has what its mark needs (nothing, a usable key, a consumer project) and otherwise never |
| `Reports.ReportingHandler.Conserves` | src/envoy/http/service_control/handler_impl.cc:325-356 | of the object once closed: its reports are those its history calls for, and each metric is in them as often as due |
| `Reports.FinalOnlyLast` | src/api_proxy/service_control/request_builder.cc:1234-1302 | over every stream a final metric selected once is reported exactly once, in the last report, if that has what its mark needs, and otherwise never; log entries are in the last report and in no other |
| `Reports.IntermediateInEvery` | src/api_proxy/service_control/request_builder.cc:1234-1302 | an intermediate metric is in every report that has what its mark needs |
| `Reports.MetricOverStream` | src/api_proxy/service_control/request_builder.cc:1198-1302 | the three at once, for every metric, settable or not, and any number of times selected |
| `Reports.StreamReports` | src/envoy/http/service_control/handler_impl.cc:330-356 | from the events alone: a stream reports exactly when it is gRPC and data comes with the interval over since the last report; each report has the key and project of the last check answer before it; the final report closes it |
| `Reports.RateBound` | src/envoy/http/service_control/handler_impl.cc:336-355 | for a positive interval and any clock readings, N intermediate reports take at least N intervals of clock time |
| `TokenSubscribers.TokenSubscriber.HandleFailResponse` | src/envoy/token/token_subscriber.cc:67-70 | no request in flight, timer armed with the retry time |
| `TokenSubscribers.TokenSubscriber.HandleSuccessResponse` | src/envoy/token/token_subscriber.cc:72-89 | delivers the token, refreshes at once or arms the timer, then signals readiness |
| `TokenSubscribers.TokenSubscriber.DoRefresh` | src/envoy/token/token_subscriber.cc:91-117 | cancels a request in flight, then sends one or retries later |
| `TokenSubscribers.TokenSubscriber.ProcessResponse` | src/envoy/token/token_subscriber.cc:119-163 | success or failure by whether the response yields a token |
| `TokenSubscribers.RefreshNeverStalls` | src/envoy/token/token_subscriber.cc:67-163 | after the first refresh, in every run: a request in flight or an armed timer with a positive delay, never both; no request cancelled; readiness exactly from the first token on |
| `TokenSubscribers.DeliversTokens` | src/envoy/token/token_subscriber.cc:72-89 | over every run the tokens delivered are exactly those of the successful responses, in order, and readiness is signalled if and only if there was one |
| `TokenSubscribers.NextAttempt` | src/envoy/token/token_subscriber.cc:67-117 | after a failure the timer is set to two seconds and nothing is delivered; a refresh sends a request or, if it cannot be prepared, waits the same |
| `TokenSubscribers.GoesOn` | src/envoy/token/token_subscriber.cc:67-163 | in every reachable state the run can go on: with an answer to the request in flight, or else with the timer |
| `TokenSubscribers.TokenSubscriber.NeverStalls` | src/envoy/token/token_subscriber.cc:67-163 | the tokens, the readiness and the loop's invariant of the object |
| `TokenSubscribers.NextRefreshBeforeExpiry` | src/envoy/token/token_subscriber.cc:80-88 | after a token the timer ends exactly five seconds before expiry, or the next refresh starts at once |

## Left out

- Configuration generation, flags, bootstrap and metadata fetching in `src/go`, and the start-up scripts: field copying over libraries that are not part of this model.
- `VariableBindingsToQueryParameters`: concatenation only.
- The service control client's aggregation cache: the client is the environment that answers a check from cache or by a remote call.
- Quota calls that answer later: the quota client always answers from its cache at once.
- Tracing spans, logging, deferred deletion beyond recording it, thread-local storage, and a `send` that fails before it returns.
- ServiceControlFilters.ServiceControlFilter.DecodeData: the report stream is told about the key and the consumer project of a check answer by an event of its own (`OnCheckInfo`), not by the answer's status.
- The access log callback, which may create a handler for a request without headers; its final report is `CallReport`. Response headers and data, which report like request data.
- Calls that re-enter the filter from inside `continueDecoding` or `sendLocalReply`.
- `Clone` of a trie node, and the second `Lookup` overload, which is the first without bindings.
- Reports.FillReportRequest: names the metrics whose setters are invoked; the values, setters that decline or fail, labels and log entry contents are not modelled.
- Reports.AppendByConsumerOperations: the same, and the second operation's own id is not modelled.
- Reports.ReportingHandler.CallReport: for a matched operation whose reports are required; the non-matched context and skipped service control are not modelled.
- PercentEncoding.UnescapeEncode: bytes are characters below 256; the encoder is ours, since the source only decodes.
- HttpCalls.HttpCallFactory.OnEvent: calls are numbered values rather than objects, so aliasing between calls is not captured.
- The unknown token type of `processResponse`, which the two-valued type excludes, and the subscriber's destructor.
- Byte counts across streaming reports, which are cumulative.
