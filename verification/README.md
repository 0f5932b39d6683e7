# Verified model of the Atome partner SDK

This project models the parts of the SDK in which something is computed rather
than carried, and proves what they promise. It verifies with
`dafny verify dfyconfig.toml` (Dafny 4.11).

**Required fields** (`SpecSchema`, `SpecWalker`, `SpecDispatch`, `SpecPaths`,
`SpecMeaning`, `SpecUnrolled`, `SpecLimits`, `SpecNames`, `SpecYaml`, `SpecFields`).
An OpenAPI schema graph, possibly cyclic, is walked as YAML and compiled into a
sorted list of paths, and the list is run on a JSON document.
The model has a relation of its own for what a schema asks of a document, a
greatest predicate over the graph. It is proved what the compiled check decides
for every document, that it never rejects a document that satisfies the schema,
when it accepts no others, what exactly it misses when there is no `oneOf`, and
that the place any such check reports is the first place where something is
missing. `SpecLimits` holds a concrete input for every condition that soundness and
exactness ask for; `SpecYaml` says what a YAML node means, against a writer of its
own, and `SpecFields` what the verdicts are on the fields of a document.

**Replay** (`ReplayCache`, `CacheHistory`, `MockServer`). The idempotency cache,
a map into a linked list updated in place, is a class proved against a sequence
of entries; that sequence is proved to hold the most recently touched keys,
whatever the run; and the mock server's pipeline on top of it is proved to
replay a request exactly when its key is still among them.

**Query** (`Query`, `Gateway`). The signing canonical and the wire form of a
query, and a gateway that reads the wire form back and recomputes the canonical.

**Retry and poll** (`Backoff`, `Doer`, `Poll`, `PaymentPoll`). The retry loop of one
signed call and the polling loop around it, over a scripted network and a
virtual clock, with a trace of everything that was signed, sent and slept.

**Envelope** (`AesBody`, `AesKey`, `EncryptHeader`, `Envelope`). Padding, the
block loops, the `Encrypt` header, the sampled key, and the two compositions,
over an abstract block permutation and an abstract key pair.

**Smaller algorithms**: paging (`Transactions`), amount and sub-order rules in
int64 (`SubOrders`, `Int64`), the JSON token walker (`AmountWalk`), the
top-level-key scanner (`TopLevelKey`), the layout of a request id (`RequestId`).

## Where the code and its documentation differ

The model follows the code. Each difference below is a lemma.

- A property of type `array` whose items are arrays, and an array at the root,
  compile to paths the interpreter never enters
  (`SpecPaths.NestedArrayNeverFails`, `SpecLimits.NestedArrayIsNotExact`,
  `SpecLimits.RootArrayIsNotExact`); a name with a dot in it, ending in `[]` or
  empty, a key ending in `[]` or empty, or a `$ref` that lands on a `$ref` with
  keywords beside it can make the check reject a good document
  (`SpecLimits.DottedNameIsNotSound`, `ArraySuffixedNameIsNotSound`,
  `EmptyNameIsNotSound`, `ArraySuffixedKeyIsNotSound`, `EmptyKeyIsNotSound`,
  `RefWithSiblingsIsNotSound`). Which paths survive their text is
  `SpecPaths.ReadPrintedIff`, and which required names are safe
  `SpecNames.SafeNameIff`.
- The replay cache is documented to be keyed on method, path and request id; its
  key joins them with `::`, and two different requests can share one
  (`MockServer.KeysTellApartIff`, `MockServer.ColonMixesKeys`).
- Request ids are documented to sort by issuance time; they sort by its low 48
  bits (`RequestId.IdsSortIff`, `RequestId.OrderBreaksAfterWrap`).
- With an empty required list `ValidateBody` does not look at the body at all,
  although its comment promises an error on undecodable JSON
  (`SpecDispatch.UndecodableIsReportedIff`).
- `RetryPolicy.Backoff` is documented as `base * 2^(attempt-1)` capped; a policy
  that passes `Validate` can wrap int64 and not wait
  (`Backoff.UnjitteredIsIntendedIff`, `Backoff.LargeBaseWraps`), and so can its
  jitter (`Backoff.JitterIsSafeIff`, `Backoff.JitterCancelsWait`).
- A temporary `APIError` is documented to mean that retries were exhausted; with
  the default policy a 400 carrying `SERVER_ERROR` is temporary and is tried once
  (`Doer.TemporaryMeansExhaustedIff`, `Doer.TemporaryAPIErrorAfterOneAttempt`).
- A response limit of 2^63 - 1 wraps to a negative count, and every body then
  reads as empty (`Doer.SuccessIsComplete`, `Doer.LargestLimitLosesBody`).
- A poll multiplier that takes the delay past int64 makes the loop stop waiting
  (`Poll.NextDelayKeepsUpIff`, `Poll.OverflowNeverWaits`,
  `Poll.HugeMultiplierStopsWaiting`).
- "The total must equal the sum" is checked with a running int64 sum, which can
  wrap (`SubOrders.AcceptedSum`, `SubOrders.SumCanWrap`).
- `hasTopLevelKey` compares a name with the raw text between quotes: it misses a
  key written with an escape, and answers yes for the spelling of such a key and
  for the raw text of a top-level string value (`TopLevelKey.RightIff`,
  `TopLevelKey.ValueTakenForKey`, `TopLevelKey.EscapedKeyIsMissed`).

## Model

| member | source | states |
|---|---|---|
| `SpecWalker.IntersectPaths` | internal/spec/walker.go:241-253 | the result has exactly the paths both lists have, and repeats none if the first list repeats none |
| `SpecWalker.Collector.Collect` | internal/spec/walker.go:141-210 | one call on a YAML node, read keyword by keyword, adds to `out` and `seen` exactly the paths its schema requires under the prefix, keeps them in step and free of duplicates, and ends by the depth measure on any cyclic graph |
| `SpecWalker.Collector.CollectCombo` | internal/spec/walker.go:155-175 | of a `oneOf`/`anyOf`, walked with an output and a `seen` map per branch, exactly the paths every branch requires are added |
| `SpecWalker.Collector.CollectAllOf` | internal/spec/walker.go:177-182 | of an `allOf`, the paths some branch requires are added |
| `SpecWalker.CompileBody` | internal/spec/walker.go:84-99 | the list compiled from the YAML node is strictly sorted and holds exactly the required paths of its schema |
| `SpecYaml.ReadWritten` | internal/spec/walker.go:141-210 | every schema is read back from the YAML it is written as, the alternatives under `oneOf` or `anyOf`, the items under `type: array`, keywords without content left out |
| `SpecYaml.OtherEntriesMeanNothing` | internal/spec/walker.go:265-283 | an entry that is none of the eight keywords, or repeats an earlier key, changes nothing |
| `SpecYaml.OneOfHidesAnyOf` | internal/spec/walker.go:232-239 | beside `oneOf`, wherever it stands, an `anyOf` changes nothing |
| `SpecYaml.ItemsNeedArray` | internal/spec/walker.go:204-209 | under any type but `array`, `items` changes nothing |
| `SpecYaml.OrderMeansNothing` | internal/spec/walker.go:265-283 | the order of different keys changes nothing |
| `SpecYaml.MisplacedMeansNothing` | internal/spec/walker.go:177-202 | a `$ref` that is no scalar, an `allOf` or `required` that is no sequence and `properties` that are no mapping change nothing |
| `SpecYaml.OtherNodes` | internal/spec/walker.go:265-283 | a document node stands for its first node, and a node that is no mapping asks for nothing |
| `SpecYaml.RequiredTexts` | internal/spec/walker.go:184-193 | a required name is the text of a scalar or of an alias, and empty for any other node |
| `SpecYaml.ReferenceIff` | internal/spec/walker.go:212-230 | a reference resolves exactly when it is one of the two component paths followed by the name of an entry, and then to that entry |
| `SpecYaml.TwelveLevels` | internal/spec/walker.go:141-145 | a field required twelve properties down is demanded, one required any deeper is not |
| `SpecYaml.CompileWritten` | internal/spec/walker.go:84-99 | compiling a specification written as YAML gives the list of the schema that was written |
| `SpecYaml.CheckWritten` | internal/spec/dispatch.go:33-48 | from the YAML to the verdict: a plain document passes exactly when it meets the demands of the schema that was written, arrays inside arrays aside, and always when it satisfies that schema |
| `SpecYaml.SubOrderAmounts` | internal/spec/walker.go:204-209 | for sub-orders with a required amount the list is `subOrders[].amount` |
| `Sorting.StableSort` | internal/spec/spec.go:238-244 | the in-place sort leaves a sorted permutation |
| `SpecDispatch.UndecodableIsReportedIff` | internal/spec/dispatch.go:27-41 | a body that cannot be decoded is an error exactly when the required list is not empty |
| `SpecDispatch.FindMissingIsFirstHole` | internal/spec/dispatch.go:53-112 | for every document and every path string, what `findMissing` reports is the text of the first hole the path meets, and nothing when there is none |
| `SpecDispatch.FirstHoleNoneIffHolds` | internal/spec/dispatch.go:76-111 | there is no first hole exactly when what the path demands holds of the document |
| `SpecDispatch.FirstHoleIsLeast` | internal/spec/dispatch.go:84-89 | the first hole is a real one: its parents exist, its end is absent or null, and no hole of the same path comes before it in index order |
| `SpecDispatch.VerdictIsFirstHole` | internal/spec/dispatch.go:33-112 | whatever the list and the document, a non-empty verdict is the text of the least hole of the first failing path, and gives that path's steps back when its indices are forgotten |
| `SpecFields.RequiredMeansHas` | internal/spec/dispatch.go:114-127 | a required field is there exactly when the document is an object with that key and a value other than null, empty and zero values included |
| `SpecFields.PropertyMeansValue` | internal/spec/dispatch.go:114-127 | a property schema is asked of the value of that key, when there is one |
| `SpecFields.ItemsMeanElements` | internal/spec/dispatch.go:84-89 | an items schema is asked of every element of an array, and of nothing else |
| `SpecFields.NameReported` | internal/spec/dispatch.go:91-110 | a required name is reported, as itself, exactly when the document lacks it |
| `SpecFields.NestedNameReported` | internal/spec/dispatch.go:91-112 | `a.b` is reported exactly when `a` is there and lacks `b` |
| `SpecFields.ElementNameReported` | internal/spec/dispatch.go:69-89 | `a[i].b` is reported for the first element i of the array `a` that lacks `b`, and nothing when there is none |
| `SpecFields.DecimalReads` | internal/spec/dispatch.go:85 | the index is printed in decimal without leading zeros |
| `SpecPaths.ReadPrintedIff` | internal/spec/dispatch.go:129-140 | `splitPath` undoes `joinPath` exactly for the flat paths whose names have no dot, end in `[]` only before an array, and are not empty at the head unless an array follows |
| `SpecPaths.ReadPrinted` | internal/spec/walker.go:255-263 | in particular a printed path of plain names without an array inside an array is read back as itself |
| `Strings.SuffixIff` | internal/spec/dispatch.go:68-70 | a segment ends in `[]` exactly when it is some text followed by it, and trimming gives that text |
| `SpecPaths.PrintInjective` | internal/spec/walker.go:255-263 | two different plain paths never print alike, so intersecting texts is intersecting paths |
| `SpecPaths.NestedArrayNeverFails` | internal/spec/dispatch.go:69-82 | a path through an array directly inside an array, or at the root, passes on every plain document |
| `SpecPaths.FlatPathCheck` | internal/spec/dispatch.go:53-112 | on every other plain path the interpreter is silent exactly when the demand holds |
| `SpecMeaning.PathsArePrintedDemands` | internal/spec/walker.go:141-210 | the collected texts are exactly the printed demands of the schema, intersections included |
| `SpecMeaning.CompiledCheckDecides` | internal/spec/dispatch.go:33-48 | for every tame schema a plain document passes the compiled check exactly when it meets every demand not running through an array inside an array |
| `SpecMeaning.CompiledCheckIsSound` | internal/spec/walker.go:141-210 | a document that satisfies the schema is never rejected, with cycles, `oneOf`, `allOf`, one-hop references and the depth cut-off all allowed |
| `SpecMeaning.CompiledCheckIsExact` | internal/spec/walker.go:177-209 | when the walk loses nothing, the check accepts exactly the documents that satisfy the schema |
| `SpecMeaning.SimpleIsLossless` | internal/spec/walker.go:177-209 | a schema without `oneOf`/`anyOf` that asks for nothing below depth 12, its references landing on plain nodes, loses nothing, so the check is exact for it |
| `SpecUnrolled.SatisfiesIff` | internal/spec/walker.go:141-210 | without `oneOf`/`anyOf` a document satisfies a schema, recursive ones included, exactly when it holds every path asked for at any depth |
| `SpecUnrolled.DemandsAreAsked` | internal/spec/walker.go:141-145 | the walk cut off at depth 12 demands nothing that the unbounded schema does not ask for |
| `SpecUnrolled.CheckMissesUnseen` | internal/spec/walker.go:141-210 | for such a schema a plain document satisfies it exactly when it passes the compiled check and holds the paths the list does not see, those below depth 12 or through an array inside an array |
| `SpecUnrolled.SeenIsExact` | internal/spec/walker.go:141-210 | so the check is exact when the list sees every path asked for |
| `SpecUnrolled.UnseenMayBeMoot` | internal/spec/walker.go:184-209 | a schema with an unseen path for which the check is exact all the same |
| `SpecMeaning.VerdictIsAHole` | internal/spec/dispatch.go:42-112 | a non-empty verdict of a compiled list belongs to its first failing demand, is the least hole of that demand, and gives it back when its indices are forgotten; on plain documents for every tame schema, arrays inside arrays included |
| `SpecLimits.OneOfIsNotExact` | internal/spec/walker.go:155-175 | a document obeying neither branch of a `oneOf` passes when the branches share no required path |
| `SpecNames.SafeNameIff` | internal/spec/dispatch.go:53-140 | every document carrying a required name passes the check compiled for it exactly when the name has no dot and does not end in `[]`, or has nothing but dots |
| `SpecLimits.DottedNameIsNotSound` | internal/spec/dispatch.go:129-140 | a required name containing a dot makes the check reject a document that carries it |
| `SpecLimits.ArraySuffixedNameIsNotSound` | internal/spec/dispatch.go:68-71 | a required name ending in `[]` is read as an array property, and a document that carries it is rejected |
| `SpecLimits.EmptyNameIsNotSound` | internal/spec/walker.go:255-258 | an empty property name vanishes from the path, and what its value requires is asked of the document |
| `SpecLimits.ArraySuffixedKeyIsNotSound` | internal/spec/dispatch.go:68-71 | a schema with an array of arrays compiles to one path, a key ending in `[]` is taken for the inner array, and a good document is rejected |
| `SpecLimits.EmptyKeyIsNotSound` | internal/spec/dispatch.go:68-91 | with an array at the root an empty key is taken for it, and a good document is rejected |
| `SpecLimits.NestedArrayIsNotExact` | internal/spec/dispatch.go:68-91 | the same path misses a missing field inside a genuine array of arrays |
| `SpecLimits.RootArrayIsNotExact` | internal/spec/dispatch.go:68-91 | a missing field in an array at the root goes unreported |
| `SpecLimits.RefToRefIsNotExact` | internal/spec/walker.go:146-153 | a `$ref` to a bare `$ref` asks for nothing although its target does |
| `SpecLimits.RefWithSiblingsIsNotSound` | internal/spec/walker.go:146-153 | a keyword beside a second `$ref` is enforced although the reference stands for its target |
| `SpecLimits.DepthCutOffIsNotExact` | internal/spec/walker.go:142-145 | a recursive schema is unsatisfied by a finite document the check passes, because the hole lies beyond depth 12 |
| `ReplayCache.IdempotencyCache.constructor` | atomefin/mock/server_options.go:235-244 | a new cache is empty, and a non-positive capacity means 1024 |
| `ReplayCache.IdempotencyCache.Get` | atomefin/mock/server_options.go:248-256 | returns the entry filed under the key, if any, and moves it to the front; map and list stay in bijection |
| `ReplayCache.IdempotencyCache.Put` | atomefin/mock/server_options.go:260-277 | stores the entry at the front, replacing one of its key or, when full, dropping the last; map and list stay in bijection |
| `ReplayCache.IdempotencyCache.Reset` | atomefin/mock/server_options.go:280-285 | empties map and list |
| `CacheHistory.HoldsTheMostRecent` | atomefin/mock/server_options.go:246-285 | after any run the cache lists exactly the first `cap` distinct keys in most-recently-touched order |
| `CacheHistory.HoldsTheLatest` | atomefin/mock/server_options.go:260-277 | every entry held is the one stored last for its key since the last reset |
| `CacheHistory.HitIff` | atomefin/mock/server_options.go:248-256 | a lookup hits exactly when its key was touched and fewer than `cap` other keys were touched since |
| `CacheHistory.FullPutEvictsOldest` | atomefin/mock/server_options.go:268-276 | a put of a new key into a full cache removes one key, and every other key held was touched after it |
| `MockServer.KeysTellApartIff` | atomefin/mock/server_dispatch.go:156-192 | for two operations, the keys tell all their requests apart exactly when the operations are the same or no key of one continues like a key of the other |
| `MockServer.SameKeyIff` | atomefin/mock/server_dispatch.go:156-192 | under that condition two keyed requests share a cache key exactly when operation and request id agree |
| `MockServer.ColonFreeIsApart` | atomefin/mock/server_dispatch.go:156-192 | operations without a colon meet that condition |
| `MockServer.ColonMixesKeys` | atomefin/mock/server_dispatch.go:165-190 | with a colon in the path two different requests share a key |
| `MockServer.KeyOfRequest` | atomefin/mock/server_dispatch.go:165-192 | with idempotency on, a POST has the key `POST path::id` by the id in its body, a GET the key `GET path::id` by the id in its query, and an encrypted POST that of its decrypted body when the server can decrypt |
| `MockServer.KeyedIff` | atomefin/mock/server_dispatch.go:165-192 | exactly those requests with a non-empty id have a key |
| `MockServer.UpperASCIIAt` | atomefin/mock/server_dispatch.go:37 | the method in a key has its letters upper-cased one by one |
| `MockServer.Server.ServeHTTP` | atomefin/mock/server_dispatch.go:37-99 | one request appends one exchange to the run, the reply is that exchange's outcome, and cache and recording are those the run leads to |
| `MockServer.TouchLogIsTouches` | atomefin/mock/server_dispatch.go:53-92 | the cache sees a touch for exactly the keyed requests that were dispatched or replayed |
| `MockServer.AnsweredBy` | atomefin/mock/server_dispatch.go:42-99 | a rejected request gets the verdict, one that is not replayed what the scenario says, or its error as a 500 |
| `MockServer.RepeatIsReplayed` | atomefin/mock/server_dispatch.go:53-92 | a request dispatched once is answered with the same status, body and headers and the marker whenever its key comes back among the next `cap` requests |
| `MockServer.RepeatedPostIsReplayed` | atomefin/mock/server_dispatch.go:53-92 | so the second of two POSTs to one path with one id in their bodies, within the next `cap` requests, gets the first reply again |
| `MockServer.ReplayedIff` | atomefin/mock/server_dispatch.go:53-63 | a keyed request is replayed exactly when its key was touched before and fewer than `cap` other keys since |
| `MockServer.ReplayRepeatsLastDispatch` | atomefin/mock/server_dispatch.go:83-99 | a replay repeats status, body and headers of the last dispatch of its key, plus the marker, and the scenario is not asked |
| `MockServer.SecondDispatchMeansEviction` | atomefin/mock/server_dispatch.go:53-92 | two successful dispatches of one key mean at least `cap` other keys were touched after its last touch |
| `MockServer.FailuresAreNotCached` | atomefin/mock/server_dispatch.go:65-70 | whatever requests follow a failed dispatch, the outcome of each is what it would be had the failed request never come |
| `Query.Rfc3986Escape` | atomefin/sign/canonical.go:222-251 | fast and slow path both give the percent-encoding of the bytes |
| `Query.UnreservedIff` | atomefin/sign/canonical.go:253-264 | the bytes left alone are the 66 of section 2.3 of RFC 3986, listed one by one |
| `Query.EscapedOne` | atomefin/sign/canonical.go:222-251 | any other byte is written as a percent sign and its two upper-case hex digits |
| `Query.EscapedAppend` | atomefin/sign/canonical.go:222-251 | a text is escaped byte by byte |
| `Query.EscapedIsItselfIff` | atomefin/sign/canonical.go:222-235 | a text is left as it is exactly when all its bytes are listed |
| `Query.SortedKeys` | atomefin/sign/canonical.go:139-143 | whatever order a map yields its keys in, sorting gives the one strictly sorted listing of them |
| `Strings.BelowIff` | atomefin/sign/canonical.go:139-143 | the order is that of a dictionary: a shorter text before its continuations, else by the first byte that differs |
| `Strings.SpacesAre` | atomefin/encrypt/header.go:53-67 | the white space that is trimmed is that of ASCII, character by character |
| `Query.CanonicalQueryFirstValue` | atomefin/sign/canonical.go:135-163 | the builder loop writes the sorted first values, joined and escaped |
| `Query.CanonicalQuery` | atomefin/sign/canonical.go:78-111 | fails exactly when some key has several values, naming the least such key and its count, and otherwise agrees with the first-value canonical |
| `Query.EncodeWireQueryRFC3986` | atomefin/sign/canonical.go:183-214 | the nested builder loops write every value of every key in sorted key order |
| `Gateway.DecodeEscaped` | atomefin/sign/canonical.go:222-251 | percent-decoding gives the bytes back, and an escaped text has no `=` and no `&` |
| `Gateway.HexDigitsRead` | atomefin/sign/canonical.go:222-251 | hex digits are read in either case |
| `Gateway.ParsePrinted` | atomefin/sign/canonical.go:183-214 | splitting, cutting and decoding a printed list of pairs gives the list back, for all bytes |
| `Gateway.WireRoundTrip` | atomefin/sign/canonical.go:165-214 | the wire query gives back every key's whole value list in order, empty lists dropped |
| `Gateway.GatewaySeesSignedBytes` | atomefin/doer.go:149-171 | the first-value canonical recomputed from the wire is byte for byte what was signed |
| `Gateway.CanonicalIsInjective` | atomefin/sign/canonical.go:113-134 | two queries are signed alike exactly when they agree on first values |
| `Gateway.WireEqualsCanonicalIff` | atomefin/sign/canonical.go:165-182 | wire and canonical agree exactly when no key has several values |
| `Backoff.Backoff` | atomefin/transport/retry.go:121-148 | the step-by-step computation gives the shifted, capped and jittered delay, with int64 wrap-around in the shift and int64 conversion of the jittered product |
| `Backoff.JitteredIsTruncatedIff` | atomefin/transport/retry.go:134-146 | for a given draw the jittered delay is the truncated product exactly when that fits int64, and otherwise there is no wait |
| `Backoff.JitterIsSafeIff` | atomefin/transport/retry.go:134-146 | for all draws at once that is so exactly when (1 + jitter) times the delay fits int64 |
| `Backoff.JitterCancelsWait` | atomefin/transport/retry.go:134-146 | a valid policy whose first delay is cancelled by its own jitter |
| `Backoff.Validate` | atomefin/transport/retry.go:96-113 | accepts exactly the policies within the documented ranges |
| `Backoff.RefusalNames` | atomefin/transport/retry.go:96-113 | a refusal says which bound is broken |
| `Backoff.UnjitteredIsIntendedIff` | atomefin/transport/retry.go:115-133 | the delay before jitter is the documented capped exponential exactly when the shift fits int64 or wraps above the cap |
| `Backoff.LargeBaseWraps` | atomefin/transport/retry.go:96-133 | a policy that passes validation waits not at all before its fourth attempt |
| `Backoff.IntendedWhenItFits` | atomefin/transport/retry.go:121-133 | with base times 2^30 below 2^63 every delay is min(cap, base * 2^min(attempt-1, 30)) |
| `Backoff.WaitsDouble` | atomefin/transport/retry.go:115-133 | then each attempt up to the 31st waits twice as long as the one before, and all later ones as long as that, until the cap is reached |
| `Backoff.BackoffMonotone` | atomefin/transport/retry.go:121-133 | then delays before jitter never decrease with the attempt |
| `Backoff.JitteredBound` | atomefin/transport/retry.go:134-146 | with a cap the jittered delay never exceeds (1 + jitter) * cap, wrapped or not; it is negative exactly when the shift wrapped to a negative delay, so never when base times 2^30 is below 2^63 |
| `Doer.BuildHeaders` | atomefin/doer.go:326-332 | the request carries the owned headers overlaid with the non-reserved per-call headers, whatever order they come in |
| `Doer.HeadersAreOwned` | atomefin/doer.go:386-410 | no per-call header changes Authorization, Content-Type, Accept or User-Agent |
| `Doer.ExtraHeadersAreSent` | atomefin/doer.go:327-332 | every other per-call header is sent with the value given last |
| `Doer.CanonicalShape` | atomefin/doer.go:327-332 | the canonical form of a header name differs from it in the case of letters only: large at the start and after a hyphen, small elsewhere |
| `Doer.TokenCharIff` | atomefin/doer.go:331 | the characters of a header name, one by one (section 5.6.2 of RFC 9110) |
| `Doer.SpellingsAgree` | atomefin/doer.go:386-397 | two spellings of one name have the same canonical form |
| `Doer.ReservedIff` | atomefin/doer.go:386-397 | a per-call header is dropped exactly when its name is one of the four owned ones in some spelling |
| `Doer.OwnedAlways` | atomefin/doer.go:399-410 | whatever headers a call adds, a request carries the signature, the JSON types and the user agent of the SDK |
| `Doer.Network.SignAndDispatch` | atomefin/doer.go:265-303 | signs once, makes attempts 1 to k with one sleep between neighbours, where k is the first attempt after which the call does not go on, and returns attempt k's result or the sleep's error |
| `Doer.EndExists` | atomefin/doer.go:281-303 | on every network a call of a valid client ends with some attempt |
| `Doer.EndIsUnique` | atomefin/doer.go:281-303 | and with only one |
| `Doer.GoesOnIff` | atomefin/doer.go:337-380 | which failures are tried again: those that are not the last attempt, after an uninterrupted wait, with a retried status or a transport failure that is no cancellation, that the policy retries and that the caller still waits for |
| `Doer.RecoversWithReply` | atomefin/doer.go:281-303 | after any number of such failures the first complete reply below 400 is the answer, and the attempt it came with the last |
| `Doer.GivesUpWithStatus` | atomefin/doer.go:369-380 | a complete reply of 400 or more that is not retried is the answer, with its status and body |
| `Doer.GivesUpInTransport` | atomefin/doer.go:337-362 | a failed send or a body that breaks off ends the call with a transport error, temporary exactly when only the number of attempts stood in the way |
| `Doer.GivesUpForGood` | atomefin/doer.go:281-303 | a body past the limit (4 MiB unless configured), a request that cannot be built and an interrupted wait end the call for good |
| `Doer.SuccessIsComplete` | atomefin/doer.go:364-384 | success means a status below 400 and a body within the limit, and the body is the whole stream exactly when the limit is not 2^63 - 1 or the stream is empty |
| `Doer.LargestLimitLosesBody` | atomefin/doer.go:417-430 | with that limit a reply with a body is a success without one |
| `Doer.TemporaryTransportMeansExhausted` | atomefin/errors.go:111-116 | a temporary transport error means exactly MaxAttempts attempts were made |
| `Doer.TemporaryIff` | atomefin/errors.go:54-78 | an API error is temporary exactly with the code SERVER_ERROR or the status 500, 502, 503 or 504 |
| `Doer.RetriedStatusMeansExhausted` | atomefin/doer.go:369-378 | an API error with a status the policy retries means every attempt was made |
| `Doer.TemporaryMeansExhaustedIff` | atomefin/errors.go:54-78 | the documented reading of a temporary API error holds for a client, on every network, exactly when one attempt is allowed or every reply it calls temporary has a retried status |
| `Doer.RetriesTemporaryIff` | atomefin/errors.go:54-78 | for a client that can be sent the code SERVER_ERROR that condition means that its policy retries every status from 400 on |
| `Doer.TemporaryAPIErrorAfterOneAttempt` | atomefin/errors.go:54-78 | a 400 with code SERVER_ERROR is temporary after a single attempt |
| `Doer.AttemptsAreAlike` | atomefin/doer.go:282-294 | all attempts of a call carry the same headers and payload, one request at most per attempt and no second signature |
| `Doer.TotalSleepBound` | atomefin/transport/retry.go:115-148 | under every valid policy with a cap the sleeps of a call of k attempts add up to at most (k - 1) * (1 + jitter) * cap |
| `Poll.WithDefaults` | atomefin/payment/payment.go:145-159 | every option comes out usable, and usable options are left alone |
| `Poll.DefaultsAre` | atomefin/payment/payment.go:145-159 | 30 seconds, 250 milliseconds, 8 seconds and doubling stand in for missing options, one by one |
| `Poll.NextDelayKeepsUpIff` | atomefin/payment/payment.go:316-321 | the next delay stays at or above min(delay, MaxDelay) exactly when the product fits int64, and never exceeds MaxDelay |
| `Poll.NextDelayIs` | atomefin/payment/payment.go:316-321 | as long as the product fits, the next delay is the product without its fraction, or MaxDelay if that is less |
| `Int64.TruncTowardZero` | atomefin/payment/payment.go:317 | a float is converted by dropping its fraction |
| `Poll.OverflowNeverWaits` | atomefin/payment/payment.go:316-321 | after one overflow the delay is negative for good |
| `Poll.HugeMultiplierStopsWaiting` | atomefin/payment/payment.go:316-321 | usable options under which the second delay is negative |
| `Poll.NilErrorIsFirstTerminal` | atomefin/payment/payment.go:283-323 | a nil error comes only with the first terminal response, every earlier one being neither terminal nor rejected |
| `Poll.TerminalEndsRun` | atomefin/payment/payment.go:299-303 | a SUCCESS or FAILED that arrives in time is the last round and is returned without an error |
| `Poll.OthersGoOn` | atomefin/payment/payment.go:304-323 | after any other response without a rejection another round is due, once the wait is over in time |
| `Poll.OutOfTime` | atomefin/payment/payment.go:289-294 | a run out of time fails with the error of who ended it, the caller or MaxWait |
| `Poll.RejectionEndsRun` | atomefin/payment/payment.go:304-309 | a synchronous rejection is the last round and its code and message are the error |
| `Poll.FailureEndsRun` | atomefin/payment/payment.go:295-298 | a failed request is the last round and its error is returned with no response |
| `Poll.DelaysAreBounded` | atomefin/payment/payment.go:256-321 | as long as neither delay overflows when multiplied, every delay of a run is at least min(InitialDelay, MaxDelay), and every one after the first at most MaxDelay |
| `Poll.NextStart` | atomefin/payment/payment.go:316-335 | a round starts when the wait after the one before is over, at once after a delay that is not positive |
| `Poll.StartsAreSpaced` | atomefin/payment/payment.go:283-323 | then round i starts no earlier than i times that minimum |
| `Poll.RoundsAreBounded` | atomefin/payment/payment.go:283-323 | then a run has at most ceil(MaxWait / min(InitialDelay, MaxDelay)) rounds |
| `PaymentPoll.Service.Invoke` | atomefin/payment/auth.go:100-124 | one submission does nothing on the network and returns the validator's verdict when the request is invalid; else it signs once, makes the attempts of one call, and returns the failure of the call or its decoded body; a given request id is kept |
| `PaymentPoll.Service.PollUntilTerminal` | atomefin/payment/auth.go:132-163 | the run's rounds follow one another as the loop prescribes, it stops where no further round may follow, and its outcome is the conclusion of its log; the result of round i is what the network script of round i leads to, and the network saw exactly those rounds, under one request id |
| `PaymentPoll.NilErrorIsTerminalReply` | atomefin/payment/payment.go:283-323 | a run without error submitted a valid request; its response is terminal and decoded from the complete reply of the last round, and every earlier round was given a complete reply that was neither terminal nor a rejection |
| `PaymentPoll.AfterRound` | atomefin/payment/payment.go:289-315 | the branches after a round return the conclusion of the log, or let another round start with the right delay |
| `PaymentPoll.AcceptableIff` | atomefin/payment/auth.go:110-112 | a submission goes out exactly when the request, with the id of the run, keeps the rules of its endpoint |
| `PaymentPoll.RoundSignsBody` | atomefin/doer.go:265-280 | what is signed in a round is the request body itself, with the id of the run |
| `PaymentPoll.SessionIsSent` | atomefin/payment/auth.go:114-117 | on /auth the session id travels as a header of its own; /capture adds none |
| `PaymentPoll.RoundRequestsAreAlike` | atomefin/doer.go:265-303 | every request of a round carries the one body and the one Authorization value signed in that round |
| `PaymentPoll.RunCounts` | atomefin/payment/auth.go:126-163 | n rounds of a valid request are n signatures, one each, and at most n * MaxAttempts requests; rounds of an invalid one are neither |
| `PaymentPoll.RunRequestsAreAlike` | atomefin/payment/auth.go:126-163 | every request of a whole run carries the body of the one request id and the Authorization of its round |
| `AesBody.Pkcs5Pad` | atomefin/encrypt/aes.go:90-98 | the filled buffer is the text followed by its padding |
| `AesBody.UnpadIffPad` | atomefin/encrypt/aes.go:106-119 | unpadding yields y exactly when the input is y padded and the padding is shorter than 256 bytes, for every block size (section 6.3 of RFC 5652) |
| `AesBody.UnpadRefuses` | atomefin/encrypt/aes.go:101-119 | a text is refused for its length, its last byte, or a byte of its padding, each with its own error |
| `AesBody.LargeBlocksDoNotUnpad` | atomefin/encrypt/aes.go:90-119 | with blocks of 256 bytes a padded text cannot be unpadded |
| `AesBody.EncryptBlocksAt` | atomefin/encrypt/aes.go:48-53 | every output block is the encryption of the same input block and of nothing else |
| `AesBody.EncryptBody` | atomefin/encrypt/aes.go:39-54 | the block loop produces the base64 of the padded text encrypted block by block, and a wrong key length is an error |
| `AesBody.DecryptBody` | atomefin/encrypt/aes.go:60-84 | the loop produces the block-wise decryption, unpadded, with the errors in the source's order |
| `AesBody.EncryptedSize` | atomefin/encrypt/aes.go:39-54 | only keys of 32 bytes encrypt, and a body grows by one to 16 bytes, to whole blocks of 16 |
| `AesBody.RefusedBody` | atomefin/encrypt/aes.go:60-78 | which bodies are refused before decryption, and why |
| `AesBody.DecryptedIff` | atomefin/encrypt/aes.go:56-84 | a body decrypts to a text exactly when its base64 is the encryption of that text padded |
| `AesBody.BodyRoundTrip` | atomefin/encrypt/aes.go:39-84 | decrypting an encrypted body of any length gives it back |
| `AesKey.RandomAESKey` | atomefin/encrypt/key.go:31-48 | the key is the letters of the first 32 accepted bytes of the random stream, and there is an error exactly when the stream fails before them |
| `AesKey.ValidateAESKey` | atomefin/encrypt/key.go:53-64 | accepts exactly 32 letters A to Z, and otherwise reports the length or the first bad byte |
| `AesKey.KeysAre` | atomefin/encrypt/key.go:14-20 | keys are 32 upper-case ASCII letters; bytes below 234 are accepted, and mapped to the letters in turn |
| `AesKey.SampledIsValid` | atomefin/encrypt/key.go:31-64 | every sampled key passes validation |
| `AesKey.NineBytesPerLetter` | atomefin/encrypt/key.go:14-20 | each letter is the image of exactly nine accepted bytes, so sampling is unbiased |
| `AesKey.ReductionAloneIsBiased` | atomefin/encrypt/key.go:14-20 | without the cut-off A to V would have ten bytes each and W to Z nine |
| `EncryptHeader.UnescapeUndoesEscape` | atomefin/encrypt/header.go:37-39 | query-unescaping gives every byte string back, and an escaped text has no comma, equals sign or white space |
| `EncryptHeader.QueryEscapedOne` | atomefin/encrypt/header.go:37-39 | a space is written as a plus and every other byte as in a query |
| `EncryptHeader.UnescapesIff` | atomefin/encrypt/header.go:71-75 | unescaping fails exactly when a percent sign lacks its two hex digits |
| `EncryptHeader.ParseEncryptHeader` | atomefin/encrypt/header.go:52-81 | the loop yields the fields of the non-blank parts, later ones overwriting earlier ones, or the first bad part's error |
| `EncryptHeader.ParseUndoesPrint` | atomefin/encrypt/header.go:41-81 | a header of any number of fields is read back field by field |
| `EncryptHeader.ParseUndoesBuild` | atomefin/encrypt/header.go:37-93 | parsing a built header yields exactly the wrapped key, and only an empty one is refused afterwards |
| `EncryptHeader.BuiltHeader` | atomefin/encrypt/header.go:37-93 | the header is `symmetricKey=` and the escaped key, and a parsed one yields a key exactly when that field is there and not empty |
| `EncryptHeader.KeyHasField` | atomefin/encrypt/header.go:57-77 | every key of the parsed map comes from a field of the header |
| `EncryptHeader.LastFieldWins` | atomefin/encrypt/header.go:57-77 | of the fields with one key the last decides |
| `Envelope.Marshal` | atomefin/encrypt/envelope.go:27-43 | seals under the key sampled from the stream, failing on a missing or small key, a failed wrap or an exhausted stream, in that order of checks |
| `Envelope.Unmarshal` | atomefin/encrypt/envelope.go:53-73 | the composition of parsing, unwrapping, validating and decrypting, with the first error that occurs |
| `Envelope.KeySizeDecides` | atomefin/encrypt/rsa.go:23-57 | keys below 2048 bits are refused on both sides; from there on the answer of the key is passed on |
| `Envelope.OpenIff` | atomefin/encrypt/envelope.go:53-73 | opening yields a text exactly when the header carries a valid key for the holder and the body is the encryption of that text under it |
| `Envelope.OpenUndoesSeal` | atomefin/encrypt/envelope.go:14-73 | the holder of the private key gets every sealed body back |
| `Envelope.RoundTrip` | atomefin/encrypt/envelope.go:14-73 | Unmarshal after Marshal gives back the plaintext of any length, for any random bytes, and fails exactly when the random source runs out, the key is too small, or wrapping the sampled key fails, each with its own error |
| `Transactions.TransactionsAll` | atomefin/transaction/transaction.go:157-207 | the page loop stops after exactly the pages needed or at the first trouble, and returns what those pages add up to, kind by kind |
| `Transactions.ValidIff` | atomefin/transaction/transaction.go:211-236 | four parameters must be given, the start not negative and the count between 0 and 50 |
| `Transactions.RejectionNames` | atomefin/transaction/transaction.go:211-236 | a rejection names a parameter that is missing or out of bounds |
| `Transactions.NormalizedIs` | atomefin/transaction/transaction.go:157-170 | a page not asked for starts at 1 and has 10 rows |
| `Transactions.PagesNeeded` | atomefin/transaction/transaction.go:189-204 | between one and floor(remaining / Count) + 1 pages are fetched |
| `Transactions.LastIffNeeded` | atomefin/transaction/transaction.go:189-200 | the k-th page ends the loop exactly when k reaches that number |
| `Transactions.NextPage` | atomefin/transaction/transaction.go:183-204 | each page continues the rows where the pages before it left off, none lost or repeated |
| `Transactions.OfIsSubsequence` | atomefin/transaction/transaction.go:185-187 | the rows returned for a kind are the rows at that kind's positions |
| `Transactions.PositionsIncrease` | atomefin/transaction/transaction.go:185-187 | those positions increase: rows keep their order and none is repeated |
| `Transactions.AllPositions` | atomefin/transaction/transaction.go:185-187 | no position of the kind is left out |
| `Transactions.CompleteIff` | atomefin/transaction/transaction.go:192-200 | every row from Start on is returned exactly when the reported total is absent, not positive, or covers them when rounded up to whole pages |
| `Transactions.TrueTotalIsComplete` | atomefin/transaction/transaction.go:155-207 | a server reporting its true total, or none, loses nothing |
| `Transactions.StaleTotalLosesRows` | atomefin/transaction/transaction.go:195-199 | a total that is too small ends the walk early |
| `SubOrders.SumSubOrderAmount` | atomefin/payment/suborder_validate.go:265-271 | the running int64 sum is the mathematical sum wrapped to int64 |
| `SubOrders.AuthAcceptedIff` | atomefin/payment/auth.go:169-215 | /auth accepts exactly the requests that keep all its rules, stated as one conjunction without an order of checks |
| `SubOrders.CaptureAcceptedIff` | atomefin/payment/capture.go:148-183 | /capture accepts exactly the requests that keep all its rules |
| `SubOrders.AuthRejectionNames` | atomefin/payment/auth.go:169-215 | a rejected /auth request breaks a rule of the field the rejection names |
| `SubOrders.CaptureRejectionNames` | atomefin/payment/capture.go:148-183 | and so does a rejected /capture request |
| `SubOrders.AcceptedSum` | atomefin/payment/auth.go:169-202 | an accepted /auth or /capture request has positive amounts whose sum is the total modulo 2^64, and is the total exactly when it is below 2^63 |
| `SubOrders.SumCanWrap` | atomefin/payment/suborder_validate.go:265-271 | an accepted request whose amounts add up to 2^64 + 1 has the total 1 |
| `SubOrders.MirrorAcceptedIff` | atomefin/payment/capture.go:148-183 | the mirror of an accepted /auth request passes /capture exactly when it names an authorization, merchants are named where required, and every amount is at least the tenor |
| `SubOrders.ShortTenorsMirror` | atomefin/payment/suborder_validate.go:11-58 | for tenors 1 and 3 the amounts never stand in the way |
| `AmountWalk.Decoder.Walk` | qa/marshal/roundtrip.go:344-399 | the recursive consumer leaves the decoder where the walk of the token list ends, or reports its error, on any stream |
| `AmountWalk.WalkIsExact` | qa/marshal/roundtrip.go:344-399 | on the tokens of any value followed by anything, exactly the value is consumed, unless a number whose nearest key is an amount key has a fraction or exponent: the first such number is reported |
| `AmountWalk.PassesIff` | qa/marshal/roundtrip.go:306-338 | a document passes exactly when every number whose nearest key is an amount key is an integer literal |
| `AmountWalk.FractionalMeans` | qa/marshal/roundtrip.go:387-393 | a literal is fractional when it has a point or an exponent letter in it |
| `AmountWalk.FractionalIff` | qa/marshal/roundtrip.go:306-338 | a JSON number is taken for fractional exactly when it is written with a fraction or an exponent |
| `AmountWalk.ValueIsLocal` | qa/marshal/roundtrip.go:344-399 | what the walk does with the tokens it consumes does not depend on what follows |
| `AmountWalk.CutOffFails` | qa/marshal/roundtrip.go:347-382 | a document that stops after its first token, at the end of the input or at malformed input, never passes |
| `AmountWalk.OpenAtTheEnd` | qa/marshal/roundtrip.go:351-382 | where an object or array has just been opened, the end of the input or a stray bracket leaves it unclosed, and other malformed input is a bad key or a bad value |
| `TopLevelKey.HasTopLevelKey` | qa/marshal/roundtrip.go:412-491 | the loop answers yes exactly for the collected names |
| `TopLevelKey.RunRaw` | qa/marshal/roundtrip.go:435-472 | inside a string the scanner copies what it collects, escapes included, and changes nothing else |
| `TopLevelKey.RunNested` | qa/marshal/roundtrip.go:466-487 | a nested value, however deep and escaped, leaves no trace |
| `TopLevelKey.CollectsTopLevelStrings` | qa/marshal/roundtrip.go:412-491 | for every well-formed object the collected names are exactly the raw texts of the top-level keys and top-level string values |
| `TopLevelKey.RightIff` | qa/marshal/roundtrip.go:401-411 | with keys decoded, the answer is yes exactly when a key of that name is written without an escape or the name is the raw text of something else; it is right exactly when a name that is a key is one of these, and a name that is no key is not such a raw text |
| `TopLevelKey.StandsForItselfIff` | qa/marshal/roundtrip.go:435-444 | what the scanner copies is the string it stands for exactly when it has no escape; otherwise that string is shorter |
| `TopLevelKey.EscapesAre` | qa/marshal/roundtrip.go:435-444 | the escapes of one character stand for the characters JSON says |
| `TopLevelKey.HexDigitsAre` | qa/marshal/roundtrip.go:435-444 | the digits of a unit are the 22 hex digits of either case |
| `TopLevelKey.PlainKeysAreNeverMissed` | qa/marshal/roundtrip.go:401-408 | of keys all written without escapes none is missed, and the answer is right exactly when the name is a key or not the text of a top-level string value |
| `TopLevelKey.ValueTakenForKey` | qa/marshal/roundtrip.go:446-464 | a string value passes for a key |
| `TopLevelKey.EscapedKeyIsMissed` | qa/marshal/roundtrip.go:435-458 | a key written with an escape is missed and its raw text passes for a key |
| `TopLevelKey.EscapedLetterIsMissed` | qa/marshal/roundtrip.go:435-458 | for instance the key `ab` of `{"\u0061b":1}` |
| `TopLevelKey.SpelledReads` | qa/marshal/roundtrip.go:435-444 | decoding gives back every string written with escapes only, surrogate pairs included, and such a text is a well-formed key |
| `TopLevelKey.EveryNameCanBeMissed` | qa/marshal/roundtrip.go:401-491 | for every non-empty name some object has a key of that name and the scanner says no |
| `RequestId.DefaultRequestID` | atomefin/request_id.go:29-48 | the 16-byte buffer is the low 48 bits of the time followed by the random bytes, or the time again, and the id is its 32 lower-case hex characters |
| `RequestId.BigEndianOrder` | atomefin/request_id.go:20-23 | within k bytes a smaller number has the smaller hex text |
| `RequestId.IdsSortIff` | atomefin/request_id.go:15-48 | at two times all pairs of ids sort in their order exactly when the low 48 bits of the first time are below those of the second |
| `RequestId.IdsSortByTime` | atomefin/request_id.go:15-48 | ids sort by their millisecond below 2^48, whatever the random parts, with or without a working random source |
| `RequestId.OrderBreaksAfterWrap` | atomefin/request_id.go:31-38 | at 2^48 milliseconds the later id sorts first |

## Left out

- Collect: states the set of paths collected and that none is repeated, not their order in `out`; the list is sorted before anything reads it.
- CompiledCheckIsExact: one direction only, from "the walk loses nothing" to exactness; what the check decides without that condition is `CompiledCheckDecides`, and without `oneOf`/`anyOf` exactly what it misses is `CheckMissesUnseen`.
- CompiledCheckIsSound: asks for plain names and for documents without keys ending in `[]`; `SpecLimits` has a rejected good document for each.
- ServeHTTP: requests are taken one at a time; lookup, dispatch and store are separate critical sections in the source, so concurrent requests of one key may both be dispatched.
- IdemKey: upper-cases ASCII letters only, and takes the request id found in the body, in the query or in the decrypted body as given.
- Decoded: works on characters, where the source compares UTF-8 bytes; an escape JSON does not have stands for its letter.
- TrimSpace: trims ASCII white space; the source also trims the white space of Unicode.
- RandomAESKey: the random source is a finite stream that then fails; an endless stream of rejected bytes is not modelled.
- TransactionsAll: the rows do not change while they are paged, and start and count reach the server as numbers rather than as query text.
- Backoff: floating point is exact real arithmetic, so rounding is not modelled; a delay outside int64 converts to the least int64, which Go leaves to the platform.
- WithDefaults: a multiplier that is not a number is not modelled.
- Finding the body's schema in a request-body component (`internal/spec/walker.go:106-126`) and collecting required query and header parameters: lookups.
- YAML and JSON text parsing, except where the scanner and the token walker read JSON; YAML aliases are nodes without keywords, as in the source.
- Response signing, automatic callbacks and per-operation hit counters of the mock server: no guarantee is stated for them.
- AES, RSA and base64 themselves: a permutation of the blocks per key, a pair of inverse functions, and an invertible text encoding.
- HTTP redirects, timeouts of single attempts, observers, logging, and JSON marshalling failures before a call.
- The credit, bill, refund, repayment and virtual-account services, which copy fields and check one condition at a time.
- Randomness and uniqueness of request ids.
