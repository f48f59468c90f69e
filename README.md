# htmxtools in Dafny

A model of the Go package `htmxtools`, which translates between htmx's HTTP
headers and Go values. It covers five parts of the package:

- the hx-swap mode enum and its token conversions (`hxswap.go`, module `Swap`);
- the catalogue of `HX-` request and response header names (`headers.go`,
  module `Headers`);
- `parseRequest` and `Middleware` (`middleware.go`, module `Middleware`);
- the response record and `AddToResponse`, which writes up to nine response
  headers in place (`htmxresponse.go`, module `Response`);
- the request record, `ToContext`/`RequestFromContext` and the strict header
  merge `AddHeaders` (`types.go`, module `Types`).

Four support modules stand in for the Go standard library:

- `Wrappers`: `Option`, which models a nil pointer result.
- `Text`: `strings.TrimSpace`, plus ASCII lower case for header-name folding.
- `Http`: a header collection is a map from the case-folded name to its list
  of values. `Get` is `FirstValue`: the first value, or "" when there is none.
  `Set` is `Replace` and `Add` is `Append`. The mutable `http.Header` is the
  class `Http.Header`.
- `Contexts`: `context.Context` as an immutable chain of key/value links.
  `Value` searches from the newest link towards the root.

Three Go operations change state in place, and they are imperative methods
here:

- `AddToResponse` is `Response.AddToResponse`. It is a sequence of
  conditional `Set` calls on a `Header` object. It is proved equal to
  `WriteAll(old headers, Serialized(hr))`. `Serialized` collects the nine
  candidate headers in the order the Go code visits them.
- `AddHeaders` is `Types.AddHeaders`. It has two nested loops over maps. Go
  leaves the iteration order of a map unspecified, so the inner loop picks
  any key not yet visited. A ghost result records the order actually taken.
  The result is tied to `StrictMerge` over that order, and every lemma about
  `StrictMerge` holds for all orders.
- The function that `Middleware` returns is `Middleware.Serve`. The next
  handler is a `Handler` object that records each request it receives, so
  "called exactly once, with this request" is part of `Serve`'s contract.

`HXSwapFromString` differs from a plain inverse of `String`: it has no case
for "beforeend". `SwapBeforeEnd` is documented as a mode (hxswap.go:17-18),
`String` gives it the token "beforeend" (hxswap.go:60-61), and
`HXSwapFromString` is documented to return a mode from its string
representation (hxswap.go:27). The model follows the code, `Swap.FromString`,
and records the gap under Findings, with a corrected `Swap.FromStringFixed`
beside it.

## Model

| member | source | states |
|---|---|---|
| Swap.String | hxswap.go:50-70 | every mode formats to one of the eight canonical tokens; mode i in 1..8 gives the i-th token of the table, and `SwapUnknown` or any value outside 1..8 gives "innerHTML" |
| Swap.StringInjective | hxswap.go:50-67 | distinct named modes have distinct tokens |
| Swap.FromString | hxswap.go:28-47 | parsing is total, never yields `SwapUnknown` or `SwapBeforeEnd`, and yields either `SwapInnerHTML` or a mode whose token is the input |
| Swap.FromStringRoundTrip | hxswap.go:29-43 | parsing the token of any named mode other than `SwapBeforeEnd` gives the mode back |
| Swap.FromStringDefault | hxswap.go:44-45 | any string other than the seven matched tokens, "" and "InnerHTML" included, parses to `SwapInnerHTML` |
| Swap.BeforeEndParsesAsInnerHTML | hxswap.go:29-46 | the token "beforeend" of `SwapBeforeEnd` parses to `SwapInnerHTML`, so the round trip fails for that mode |
| Swap.FromStringFixed | hxswap.go:28-47 | the corrected parser is total, yields only named modes, and yields `SwapInnerHTML` or a mode whose token is the input |
| Swap.FromStringFixedRoundTrip | hxswap.go:28-70 | with the "beforeend" case added, parsing inverts formatting on all eight named modes |
| Swap.FixedTokenRoundTrip | hxswap.go:28-70 | with the fix, formatting inverts parsing on each of the eight canonical tokens |
| Headers.HTMXRequestHeader.String | headers.go:7-9 | the wire name converts back to the same header, so nothing is lost |
| Headers.HTMXResponseHeader.String | headers.go:15-17 | the wire name converts back to the same header, so nothing is lost |
| Headers.AllPrefixed | headers.go:24-70 | every request and response header name starts with "HX-" and continues after it |
| Headers.DistinctCanonical | headers.go:24-70 | names that differ in length or, ignoring case, at index 3 or 5 stay distinct under case-insensitive lookup |
| Headers.RequestNamesDistinct | headers.go:27-42 | the eight request header names are pairwise distinct, ignoring case |
| Headers.ResponseNamesDistinct | headers.go:47-70 | the ten response header names, `HX-Retarget` included, are pairwise distinct, ignoring case |
| Headers.TriggerNameShared | headers.go:38-64 | the request and response trigger headers are both "HX-Trigger", so the two catalogues overlap |
| Middleware.Field | middleware.go:24-35 | a trimmed header lookup has no white space at either end and is "" when the header is missing |
| Middleware.ParseRequest | middleware.go:23-39 | a record comes back exactly when the trimmed `HX-Request` value is "true", and every string in it is trimmed |
| Middleware.NoHeadersNotParsed | middleware.go:24-27 | a request with no headers is not an htmx request |
| Middleware.MarkerCaseSensitive | middleware.go:24 | "True" is refused, and " true\n" is accepted because it is trimmed first |
| Middleware.MarkerOnly | middleware.go:28-36 | with only the marker present, the record has both flags false and all five strings empty |
| Middleware.FullRequestParsed | middleware.go:28-36 | the header values of the package's full test request parse to the full test record |
| Middleware.ParseDependsOnRequestHeaders | middleware.go:23-39 | parsing reads nothing but the first values of the eight request headers |
| Middleware.Forwarded | middleware.go:12-17 | the next handler always gets the original header collection |
| Middleware.BypassUnchanged | middleware.go:17 | when parsing gives nothing, the request is passed on unchanged, so its context still holds no record |
| Middleware.DecoratedCarriesRecord | middleware.go:12-15 | when parsing succeeds, the forwarded context yields the parsed record and resolves every other key as the original context did |
| Middleware.Serve | middleware.go:10-19 | the next handler is called exactly once, with the request as forwarded at the time of the call, whatever the handler later does to the shared headers |
| Middleware.SendNext | middleware_test.go:88-95 | each header the test adds under a new name is read back with its value, and earlier ones keep theirs |
| Middleware.MiddlewareScenario | middleware_test.go:62-101 | a plain request reaches the handler with no record; after the htmx headers are added, it reaches the handler with the full record |
| Response.AddToResponse | htmxresponse.go:30-59 | the new header collection is the old one with the serialised headers `Set` into it, and the call never fails |
| Response.WriteOneMore | htmxresponse.go:32-56 | one more `Set` is one more serialised header |
| Response.SetWhen | htmxresponse.go:40-42 | one conditional `Set` step, proved against the serialisation |
| Response.SetIfNotBlank | htmxresponse.go:31-33 | one `TrimSpace(...) != ""` step, proved against the serialisation |
| Response.KeysDistinct | htmxresponse.go:30-58 | the nine candidate headers are stored under distinct keys, none of them `HX-Retarget`'s |
| Response.CollectAt | htmxresponse.go:30-58 | a candidate's header is in the serialisation exactly when its test holds, and then holds the candidate's value |
| Response.CollectKeys | htmxresponse.go:30-58 | the serialisation holds only candidate headers |
| Response.Written | htmxresponse.go:31-57 | after `AddToResponse`, a header whose test held has exactly its one value, untrimmed; the others are as they were, present or not |
| Response.RefreshWritten | htmxresponse.go:40-42 | `HX-Refresh` is written, as "true", exactly when `Refresh` is set |
| Response.ReswapWritten | htmxresponse.go:52-54 | `HX-Reswap` is written exactly when the mode is not zero, and its value is the mode's token |
| Response.RetargetNeverWritten | htmxresponse.go:30-58 | `HX-Retarget` is never written |
| Response.OthersUntouched | htmxresponse.go:30-58 | every header outside the nine candidates keeps all its values, and absent ones stay absent |
| Response.ZeroWritesNothing | htmxresponse.go:30-58 | the zero record writes no header at all |
| Response.AddTwice | htmxresponse.go:32-56 | adding the same response twice gives the same headers as adding it once |
| Types.ToContext | types.go:29-34 | the derived context extends the parent, or a fresh empty context when the parent is nil; it carries the record; other keys are unchanged |
| Types.RequestFromContext | types.go:37-43 | a record is found only where the private key is bound |
| Types.ContextRoundTrip | types.go:29-43 | retrieving right after attaching gives back the very record attached; a nil parent is replaced by an empty context |
| Types.NothingAttached | types.go:37-43 | a context chain that never bound the private key yields no record |
| Types.StrictMergeFrame | types.go:67-75 | the merge touches only the headers its entries name |
| Types.StrictMergeAppend | types.go:67-75 | merging `a + b` is merging `a`, then, unless that failed, merging `b` from the result |
| Types.StopsAtFirstConflict | types.go:67-72 | the first conflict ends the walk with "header already set" for that entry; earlier writes stay and later entries are never looked at |
| Types.ExistingValueConflicts | types.go:69-71 | a header that already holds a non-blank value makes the call fail, whatever the iteration order |
| Types.SuccessWritesAll | types.go:67-75 | after a successful call every header named holds exactly one value, and a non-blank entry holds its own value |
| Types.FreshNamesSucceed | types.go:67-75 | with no header already set and no header named twice, the call succeeds in any order |
| Types.MergeOne | types.go:68-72 | one entry is written when its header is blank; otherwise the call fails and nothing changes |
| Types.MergeStep | types.go:68-72 | extending a walk that has not failed by one entry writes it or reports it as the conflict |
| Types.WhitespaceOverwritten | types.go:69 | a header holding only white space counts as unset and is overwritten without error |
| Types.SecondMergeConflicts | types.go:69-72 | two merges of the same header with non-blank values: the second fails and the first value stays |
| Types.AddHeaders | types.go:66-76 | the result is the strict merge over the order actually walked; each map is walked without repeats; every map before the last one walked was visited in full, so a failure comes only after all earlier maps were written; on success every key of every map was visited |
| Types.AddMap | types.go:68-73 | one map is walked in an arbitrary order, continuing the strict merge, and stops at the first conflict |
| Text.TrimSpace | types.go:69 | the trimmed string has no white space at either end |
| Text.BlankIffAllSpace | types.go:69 | trimming leaves nothing exactly when the string is all white space |
| Text.TrimSpaceKeeps | middleware.go:29-35 | a string with no white space at either end is left as it is |
| Text.TrimSpaceIdempotent | middleware.go:29-35 | trimming twice is trimming once |
| Http.GetAfterSet | types.go:72 | after `Set`, `Get` of any spelling of the name returns the value set, and other names are unchanged |
| Http.GetAfterAdd | middleware_test.go:89-95 | after `Add`, `Get` returns the earlier first value if there was one, else the value added; other names are unchanged |
| Contexts.Value | types.go:38 | a value is found exactly when some link binds the key |

## Left out

- `HXLocationResponse.String` (htmxresponse.go:74-78): it is a call into `encoding/json` whose error is discarded, and JSON encoding is not modelled.
- The example server under `examples/`: it is HTTP serving, template rendering and logging.
- HTTP transport, the `http.ResponseWriter` and the `httptest` server of the tests: a response writer is modelled only by its header collection.
- Go's header-key canonicalisation (`textproto.CanonicalMIMEHeaderKey`) is modelled as ASCII lower case. Only the resulting case-insensitive lookup matters here.
- Text.TrimSpace: white space is fixed to the Latin-1 characters that `unicode.IsSpace` accepts. Unicode white space above U+00FF is not treated as white space.
- `context.Context` internals and `r.WithContext`: a context is an immutable chain, and `WithContext` is a new `Request` value sharing the same `Header` object. A nil receiver of `ToContext` is not modelled; a Go `*HTMXRequest` is a plain record value.
- Types.AddHeaders: the `HTMXResponse` receiver is never used by the Go method and is not a parameter. The error text is modelled as the header name and value it is formatted from. A nil header collection, on which Go's first `Set` panics (types.go:72), is not modelled: a header collection is always a map, and a missing one reads as empty.
- Response.AddToResponse: a nil `*HTMXResponse` receiver, which panics at htmxresponse.go:31, is not modelled; the record is a value.
- Types.RequestFromContext: only contexts built from this model's own keys and values are modelled. Another package's key never equals the private key, because its Go type differs. A nil context, on which Go's `ctx.Value` panics (types.go:38), is not modelled; unlike `ToContext`, retrieval does not substitute an empty context.
- Middleware.Serve: a nil `next` handler, on which Go's `ServeHTTP` call panics (middleware.go:14 and 17), is not modelled; the handler is always an object.
- The repeated declarations of `HTMXRequest`, `HTMXResponse`, `ToContext`, `RequestFromContext` and the context key (context.go, htmxrequest.go, hmtxresponse.go) add nothing beyond types.go and htmxresponse.go, and each is modelled once.
- The test-only `addHeaders` (middleware_test.go:104-114) is the same loop over request-header keys as `AddHeaders` and is not modelled separately.
- Middleware.MiddlewareScenario: the test's own `ParseRequest` call (middleware_test.go:45) names an exported function that the package does not define. The lemmas on `ParseRequest` cover the same three cases.

## Findings

| source | as written | input that shows it | evidently intended | confidence | as-written member | corrected member |
|---|---|---|---|---|---|---|
| hxswap.go:28-47 | the switch of `HXSwapFromString` has no case for `SwapBeforeEnd.String()`, so "beforeend" falls to the default | `HXSwapFromString("beforeend")` returns `SwapInnerHTML`, not `SwapBeforeEnd` | every canonical token parses to its own mode, so `HXSwapFromString(x.String()) == x` for all eight named modes | high (not executed) | Swap.BeforeEndParsesAsInnerHTML | Swap.FromStringFixedRoundTrip |
