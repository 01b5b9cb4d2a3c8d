# dev-proxy DNS dispatcher, modelled in Dafny

dev-proxy is a small DNS responder. It answers queries for one configured
domain suffix locally, using a fixed address. It forwards every other query
to the upstream resolver `1.1.1.1:53` and relays that resolver's reply. This
project models the per-query handler `handleDns` in `main.go` and proves what
it guarantees.

Layout:

- `wrappers.dfy` (`Wrappers`): `Option`, which stands in for Go's `(value, error)` pairs.
- `strings.dfy` (`Strings`): `ToLower`, limited to ASCII, and `HasSuffix`, after Go's `strings` package.
- `dns.dfy` (`Dns`): the message, question and resource-record values the handler reads and builds.
- `proxy.dfy` (`Proxy`): the handler itself.
  - `Intercepts` classifies one question.
  - `FirstMatch` finds the first intercepted question.
  - `Skeleton` and `InterceptReply` build the local reply.
  - `Dispatch` is the specification function.
  - `HandleDns` is the imperative handler. Its question loop returns early, and it is proved to compute `Dispatch`.
- `properties.dfy` (`ProxyProperties`): lemmas about `Dispatch`.
- `scenarios.dfy` (`Scenarios`): worked examples with local address 10.0.0.5 and domain `test.local`.

The handler's two may-fail library steps are parameters:

- `exchange: Msg -> Option<Msg>` is the upstream round trip. `None` stands for a transport error, a timeout or a cancelled context.
- `pack: Msg -> Option<Wire>` encodes a message. `None` stands for an encoding error.

The result is an `Outcome`. It is either `Intercepted(reply, written)` or
`Forwarded(query, upstreamReply, written)`. `written` holds the bytes copied
to the client, and `None` means nothing was written.

Case handling follows the code. Only the query name is lower-cased
(main.go:70). The intercept domain is only whitespace-trimmed at start-up
(main.go:37), so the comparison is not fully case-insensitive. A domain
configured with an upper-case letter intercepts nothing
(`UpperCaseDomainNeverIntercepts`, `Scenarios.MixedCaseDomainForwards`).
The match is a plain string suffix test with no label-boundary check, so
`eviltest.local` matches `test.local` (`NoLabelBoundary`).

Query names are taken as the DNS codec presents them, which is fully
qualified with a trailing dot (`api.test.local.`). With the domain configured
as `test.local`, the real query for `api.test.local` is therefore forwarded,
not intercepted (`Scenarios.FullyQualifiedQueryForwarded`). Only a domain
configured with the trailing dot, `test.local.`, matches it
(`Scenarios.FullyQualifiedDomainMatches`). The undotted names in the other
scenarios show the string-level rule only.

## Model

| member | source | states |
|---|---|---|
| `Strings.LowerChar` | main.go:70 | one character is lower-cased: upper-case ASCII letters map to their lower-case letter, every other character is unchanged, and the result is never upper-case |
| `Strings.HasSuffix` | main.go:73 | the suffix test holds iff the string is at least as long as the suffix and its last characters equal the suffix's, one by one |
| `Strings.ToLower` | main.go:70 | the lower-cased name has the same length and lower-cases each character; the result contains no upper-case letter |
| `Strings.ToLowerIdempotent` | main.go:70 | lower-casing an already lower-cased name changes nothing |
| `Strings.HasSuffixIffConcat` | main.go:73 | the suffix test holds iff the string is some prefix followed by the suffix |
| `Proxy.Intercepts` | main.go:70-73 | a question can only be intercepted by a domain no longer than its name and free of upper-case letters; the empty domain intercepts every name (start-up refuses an empty domain, main.go:38-40) |
| `Proxy.Skeleton` | main.go:58-67 | the reply skeleton mirrors ID, question list and recursion-desired, sets response and recursion-available, leaves opcode QUERY (0), rcode NOERROR (0) and the AA, TC, Z, AD and CD bits clear, keeps the request's wire buffer, and has no records |
| `Proxy.InterceptReply` | main.go:74-83 | the local reply mirrors the request and holds one record for a type A question (lower-cased name, class IN, TTL 3600, the local address) and none for any other type |
| `Proxy.Dispatch` | main.go:56-107 | a request is answered locally iff at least one of its questions is intercepted; on the forward path the request itself goes upstream and the upstream's answer is what is recorded |
| `Proxy.FirstMatch` | main.go:69-73 | returns the smallest index of an intercepted question, or nothing when no question is intercepted |
| `Proxy.HandleDns` | main.go:56-107 | the loop-and-early-return handler produces exactly the outcome `Dispatch` specifies |
| `ProxyProperties.InterceptsIffSuffix` | main.go:70-73 | a question is intercepted iff its lower-cased name is some string followed by the domain exactly as configured |
| `ProxyProperties.UpperCaseDomainNeverIntercepts` | main.go:70-73 | only the name is case-folded, so a domain containing an upper-case letter matches no name |
| `ProxyProperties.NoLabelBoundary` | main.go:73 | any prefix in front of a lower-case domain is intercepted, whether or not it ends on a label boundary |
| `ProxyProperties.TrailingDotNeedsDottedDomain` | main.go:70-73 | a name ending in a dot, as fully qualified names do, is never intercepted by a domain that does not end in a dot |
| `ProxyProperties.EmptyDomainInterceptsFirstQuestion` | main.go:69-91 | with an empty domain every request with a question is answered locally from its first question; start-up refuses an empty domain (main.go:38-40), so the running program never reaches this case |
| `ProxyProperties.NoMatchForwardsVerbatim` | main.go:94-106 | when no question is intercepted, the request itself is sent upstream unmodified, and the client gets the encoded upstream reply when exchange and encoding succeed, nothing otherwise |
| `ProxyProperties.NoQuestionsForwarded` | main.go:69-106 | a request without questions is always forwarded, and the client gets the packed upstream reply or nothing |
| `ProxyProperties.InterceptIgnoresUpstream` | main.go:85-96 | on the intercept path the outcome does not depend on the upstream at all |
| `ProxyProperties.InterceptReplyShape` | main.go:58-67 | a local reply mirrors ID, question list and recursion-desired, sets response and recursion-available, answers with opcode 0, rcode NOERROR and the other flags clear (so a non-A intercept is a NOERROR reply with no data), keeps the request's wire buffer, has at most one answer and no other records, and is what gets packed |
| `ProxyProperties.FirstMatchTypeA` | main.go:74-79 | if the first intercepted question has type A, the reply holds exactly one record: the lower-cased name, class IN, TTL 3600, the local address |
| `ProxyProperties.FirstMatchOtherType` | main.go:81-90 | if the first intercepted question has another type, the reply has no answer and the request is not forwarded |
| `ProxyProperties.FirstMatchIs` | main.go:69-73 | the first index whose question is intercepted is the one the scan stops at |
| `ProxyProperties.LaterQuestionsIgnored` | main.go:69-91 | requests that agree up to an intercepted question get the same answer section, so later questions are never examined |
| `ProxyProperties.AnswerNamesIntercepted` | main.go:70-79 | every answer in a local reply is for a name that is itself intercepted |
| `ProxyProperties.NothingWrittenOnError` | main.go:85-105 | a failed local pack, a failed exchange or a failed upstream pack means nothing is written to the client |
| `ProxyProperties.WrittenIsPackedReply` | main.go:85-106 | whatever is written is the encoding of the local reply, or of the upstream's reply exactly as it was returned; and a successful encoding on either path is always written |
| `ProxyProperties.ForwardedReplyMirrorsIffUpstreamDoes` | main.go:96-106 | a one-line corollary of `Dispatch`'s contract: on the forward path the relayed reply has the request's ID and question list exactly when the upstream exchange's reply does |
| `Scenarios.ApiTestLocalIsLower` | main.go:70 | `api.test.local` is unchanged by lower-casing |
| `Scenarios.ApiTestLocalMatches` | main.go:73 | `api.test.local` ends with `test.local` |
| `Scenarios.InterceptedAQuery` | main.go:74-79 | `api.test.local` type A gets the one record `api.test.local` to 10.0.0.5, TTL 3600, under the request's ID |
| `Scenarios.InterceptedAaaaQuery` | main.go:81-90 | `api.test.local` type AAAA gets an empty answer section and is not forwarded |
| `Scenarios.ExampleComMisses` | main.go:73 | `example.com` does not end with `test.local` |
| `Scenarios.ForwardedQuery` | main.go:94-106 | `example.com` is forwarded exactly as received, and a successful exchange's reply is what gets encoded for the client |
| `Scenarios.UpstreamTimeout` | main.go:96-100 | when the upstream exchange fails, nothing is written back |
| `Scenarios.SuffixWithoutLabelBoundary` | main.go:73 | `eviltest.local` is intercepted under `test.local` |
| `Scenarios.MixedCaseDomainForwards` | main.go:37 | a domain configured as `Test.Local` intercepts nothing, so `api.test.local` is forwarded |
| `Scenarios.FullyQualifiedNameMisses` | main.go:73 | `api.test.local.` does not end with `test.local` |
| `Scenarios.FullyQualifiedQueryForwarded` | main.go:69-96 | under the domain `test.local`, the fully qualified query for `api.test.local.` is forwarded |
| `Scenarios.FullyQualifiedNameMatchesDottedDomain` | main.go:73 | `api.test.local.` ends with `test.local.` |
| `Scenarios.FullyQualifiedDomainMatches` | main.go:69-91 | under the domain `test.local.`, the fully qualified query for `api.test.local.` is answered locally |

## Left out

- `main` (main.go:17-54) is left out. It covers argument handling, `TrimSpace`, `netip.ParseAddr`, building the server and `ListenAndServe`. The local address and the intercept domain are parameters of the handler instead.
- The upstream resolver `UPSTREAM` (main.go:15) and `dns.Exchange` (main.go:96) are not modelled as a network call. The round trip to that fixed address, over UDP and under a cancellation context, is the `exchange` parameter. Its failure, timeout and cancellation are all `None`.
- `Pack` and `io.Copy` are not modelled as a codec or as I/O. The wire encoding is the abstract `pack` parameter. The copy to the client counts as always succeeding, because its error is ignored in the source (main.go:89, main.go:106).
- `netip.MustParseAddr` (main.go:77) is not modelled. The local address is opaque address bytes, already valid because `main` canonicalised it. Whether an IPv6 address in an A record packs is left to `pack`.
- `Strings.ToLower` models ASCII letters only. Go's `strings.ToLower` also folds non-ASCII letters. That Unicode case mapping is not reproduced.
- Messages keep only the fields the handler reads or sets, plus the authority and additional sections. The EDNS pseudo-section and the question class play no part in the decision.
- Forward-path ID and question mirroring is not proved. On the forward path the handler relays the upstream reply unchanged (main.go:96-106). Matching the request's ID and questions there is the job of `dns.Exchange` and the upstream, and `exchange` is unconstrained. `ForwardedReplyMirrorsIffUpstreamDoes` states only that the handler keeps whatever mirroring the exchange provides.
- Logging (`log.*`) is a side channel and is left out.
- Concurrent handler invocations by the server are left out. Each call is independent, and `Dispatch` is a function, so the same request with the same upstream behaviour always gives the same outcome.
