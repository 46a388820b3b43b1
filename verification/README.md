# simple-http3 in Dafny

A model of the server side of simple-http3, a small HTTP/3 demo server over QUIC. The server
routes ordinary requests to REST and streaming handlers. It hands an extended CONNECT for
WebTransport to a session that echoes datagrams, uni streams and bidi streams. A browser
client pins the server's self-signed certificate by its SHA-256 hash. The model covers:

- `router.rs`: the exact-path router (`Router`), a finite map from path to a `Rest` or
  `Stream` handler.
- `server.rs`: the per-request dispatch (`Decide`, `HandleRequest`), and the REST and 404
  responses as traces of `send_response`/`send_data`/`finish` calls (`Http`). It also covers
  the connection loop as a fold over a finite sequence of accept results (`EventLoop`), the
  classification of accept errors by substring, and the lowercase hex rendering of the
  certificate digest.
- `webtransport.rs`: the welcome stream, the uni echo (64-byte chunks, each preceded by a 10 ms sleep), the
  bidi echo (`[echo] ` prefix per read) and the session's `select!` loop, run over a
  finite sequence of events.
- `handlers.rs`: the three REST handlers and the two paced stream handlers. Clock readings
  are function parameters.
- `main.rs`: the demo configuration and the five-route table (`Demo`).
- `app.rs`: `parse_hex`, seen through the UTF-8 byte view it slices, and the
  certificate-hash check of the connect handler (`HexInput`).
- `config.rs`: the server and client configuration records and their builders.

Each file holds one module; `Wrappers`, `Text` and `EventLoop` are shared helpers.

## Model

| member | source | states |
|---|---|---|
| Router.TextResponse | crates/server/src/router.rs:18-23 | the body is kept and the content type is `text/plain` |
| Router.JsonResponse | crates/server/src/router.rs:25-30 | the body is kept and the content type is `application/json` |
| Router.New | crates/server/src/router.rs:61-65 | a new router resolves no path |
| Router.Route | crates/server/src/router.rs:75-86 | the path now resolves to the REST handler, replacing any earlier handler; every other path resolves as before; the key set gains the path |
| Router.AddStream | crates/server/src/router.rs:97-114 | the path now resolves to the stream handler, replacing any earlier handler; every other path resolves as before; the key set gains the path |
| Router.Get | crates/server/src/router.rs:117-119 | lookup finds a handler exactly when the path is registered, and it is the registered one |
| Router.Contains | crates/server/src/router.rs:123-125 | a path is contained exactly when `get` finds a handler for it |
| Router.Routes | crates/server/src/router.rs:128-130 | the listed paths are exactly the registered ones, each listed once |
| Router.BuildLastWins | crates/server/src/router.rs:75-114 | after any chain of `route`/`stream` calls, a path resolves to the handler of its last registration, whichever kind it is; an unregistered path resolves as before the chain |
| Router.BuildKeys | crates/server/src/router.rs:75-114 | after a chain of registrations, the routed paths are the earlier ones plus every registered path |
| Router.ExactMatchOnly | crates/server/src/router.rs:117-119 | lookup is exact: a router holding only `p` resolves `q` exactly when `q` is `p` (no prefix or normalisation) |
| Server.Decide | crates/server/src/server.rs:113-141 | a request takes over the connection exactly when it is CONNECT with protocol `webtransport`, whatever its path; any other request is 404 exactly when its path is unrouted, and otherwise goes to its route's REST or stream handler |
| Server.RestFraming | crates/server/src/server.rs:195-213 | a well-framed 200 response with the handler's content type, the body as the only data frame, and a content length equal to the body's UTF-8 byte length |
| Server.NotFoundFraming | crates/server/src/server.rs:215-231 | a well-framed 404 response, `application/json`, body `{"error": "Not Found"}`, declared length 22, which equals the body's byte length |
| Server.HandleRequest | crates/server/src/server.rs:169-193 | an unrouted path gets the 404 trace; a REST route gets its handler's response framed; a stream route gets its handler's own trace |
| Server.HandleRequestStatus | crates/server/src/server.rs:179-190 | if stream handlers answer 200, every ordinary request gets a well-framed response, and it is a 404 exactly when its path is unrouted |
| Server.Classify | crates/server/src/server.rs:148-162 | an accept error is a timeout iff its text contains `Timeout`; graceful iff no timeout marker and `H3_NO_ERROR` or `ApplicationClose` occurs; other iff none of the five markers occurs |
| Server.TimeoutWins | crates/server/src/server.rs:151 | a `Timeout` anywhere in the text wins over every other marker |
| Server.ApplicationClosedIsGraceful | crates/server/src/server.rs:153-156 | an `ApplicationClosed` text is graceful, although it also contains the reset marker `Closed` |
| Server.ResetMarker | crates/server/src/server.rs:156-157 | `Reset` or `Closed` classifies as a reset only when no earlier marker is present |
| Server.ConnectionStep | crates/server/src/server.rs:102-164 | the loop stops exactly on `Ok(None)`, an accept error, or a WebTransport CONNECT, and says why; a resolution failure is skipped; any other request is dispatched |
| Server.ConnectionKeepsAccepting | crates/server/src/server.rs:104-142 | until an ending event, every resolved request is dispatched in arrival order, failures are skipped, and no dispatched request is an upgrade |
| Server.ConnectionEndsAtFirstEnd | crates/server/src/server.rs:102-164 | the first ending event ends the loop with its reason; later events are never consumed |
| Server.LowerHex | crates/server/src/server.rs:28 | the digest renders as two lowercase hex digits per byte |
| Http.SingleBodyResponse | crates/server/src/server.rs:202-210 | headers first, the one body frame, then finish; the declared content length reads back as the body's UTF-8 length |
| Text.DecimalRoundTrip | crates/server/src/server.rs:205 | a length written as a header value reads back as the same number |
| Text.SignedDecimalRoundTrip | crates/server/src/handlers.rs:86 | a signed timestamp written in decimal reads back as the same integer |
| Handlers.Index | crates/server/src/handlers.rs:15-17 | plain text `Hello from HTTP/3!` |
| Handlers.Health | crates/server/src/handlers.rs:20-22 | the JSON health document |
| Handlers.ApiInfo | crates/server/src/handlers.rs:25-29 | the JSON info document, with `application/json` |
| Handlers.PacedShape | crates/server/src/handlers.rs:53-63 | a paced run alternates item k and a sleep, with no sleep after the last item |
| Handlers.TimeStream | crates/server/src/handlers.rs:39-71 | well-framed 200 with SSE headers; the data frames are the five time events (ids 1 to 5, each with its own clock reading) then the done event; exactly four one-second sleeps |
| Handlers.TimeStreamLayout | crates/server/src/handlers.rs:44-67 | twelve frames: headers, events and sleeps interleaved, the done event, finish |
| Handlers.CounterLines | crates/server/src/handlers.rs:85-87 | ten lines, line k carrying count k+1 and the timestamp read for it |
| Handlers.CounterStream | crates/server/src/handlers.rs:74-99 | well-framed 200 with the NDJSON header; the data frames are the ten counter lines; nine 500 ms sleeps; the last data frame is count 10 |
| Handlers.CounterStreamLayout | crates/server/src/handlers.rs:84-96 | twenty-one frames: the header block, lines 1 to 10 with a 500 ms sleep between consecutive lines (none before the first or after the last), then finish |
| WebTransport.WelcomeOps | crates/server/src/webtransport.rs:129-149 | the welcome text in full, then the send side is shut down |
| WebTransport.EchoUni | crates/server/src/webtransport.rs:152-169 | a failed read writes nothing and fails; otherwise the bytes written are exactly the bytes read |
| WebTransport.UniReplayWritesInput | crates/server/src/webtransport.rs:163-166 | the replayed chunks put back together are the input |
| WebTransport.UniReplayShape | crates/server/src/webtransport.rs:163-166 | the replay is ceil(len/64) rounds; round k sleeps 10 ms, then writes chunk k, bytes 64k to min(64k+64, len) |
| WebTransport.Chunk | crates/server/src/webtransport.rs:163 | chunk k of `chunks(64)` holds 1 to 64 bytes, and exactly 64 unless it is the last |
| WebTransport.UniChunkSizes | crates/server/src/webtransport.rs:163 | every chunk but the last is 64 bytes; the last is 1 to 64 bytes |
| WebTransport.BidiStep | crates/server/src/webtransport.rs:180-200 | a zero-length read or a read error stops the worker with nothing written; any other read writes the prefix, the bytes and a flush |
| WebTransport.EchoBidiPerRead | crates/server/src/webtransport.rs:187-195 | read k is answered by the operations 3k to 3k+2: the prefix, exactly its bytes, a flush |
| WebTransport.EchoBidiBytes | crates/server/src/webtransport.rs:187-195 | the bytes sent back are `[echo] ` followed by each read in turn |
| WebTransport.EchoBidiStops | crates/server/src/webtransport.rs:180-201 | the first empty read or error ends the echo; later reads are never made |
| WebTransport.SessionStep | crates/server/src/webtransport.rs:37-121 | the loop stops exactly on a reader error or an acceptor's end or error; datagrams are echoed unchanged; a uni stream gets a worker only if its reply stream opens; a bidi stream gets an echo worker; a request in the session is dropped |
| WebTransport.HandleSession | crates/server/src/webtransport.rs:19-126 | a failed `open_bi` fails the session before the loop; otherwise the welcome is sent and the loop runs |
| WebTransport.DatagramEchoExact | crates/server/src/webtransport.rs:40-53 | one send is attempted per datagram received, with the same payload and in the same order; the sends that succeed are exactly those of the datagrams whose `send_datagram` did not fail, still in order, and a failure does not stop the loop |
| WebTransport.SessionEndsAtFirstEnd | crates/server/src/webtransport.rs:37-122 | the first end or error of any source ends the session loop; later events are never consumed |
| Demo.DemoConfig | crates/server/src/main.rs:33-38 | default bind address 127.0.0.1:4433, certificate names `localhost` and `127.0.0.1`, idle timeout 10 s (below the default 30) |
| Demo.DemoRouter | crates/server/src/main.rs:43-50 | each of the five paths resolves to its handler, and no other path is routed |
| Demo.DemoRouterIsBuild | crates/server/src/main.rs:43-50 | the builder chain is the registration list applied in order |
| Demo.AdvertisedAreRouted | crates/server/src/handlers.rs:27 | the endpoints `api_info` advertises are exactly the routed paths, and there are five |
| Demo.ServeRequestStatus | crates/server/src/main.rs:43-53 | every ordinary request gets a complete response; it is a 404 exactly when its path is not one of the five |
| Demo.HealthRequest | crates/server/src/main.rs:46 | `GET /health` gets the JSON health body with its exact length |
| Demo.CounterRequest | crates/server/src/main.rs:50 | `GET /stream/counter` gets the counter stream's ten lines |
| Demo.WebTransportPathNotRouted | crates/server/src/server.rs:113-141 | `/webtransport` is not a route: every request for it that is not a CONNECT with protocol `webtransport` (any other method, or a CONNECT with another or no protocol) is answered 404 |
| Config.DefaultServerConfig | crates/common/src/config.rs:16-24 | bind 127.0.0.1:4433, hostnames `["localhost"]`, idle timeout 30 s |
| Config.NewServerConfig | crates/common/src/config.rs:27-32 | the given address; the other fields are the default's |
| Config.WithHostnames | crates/common/src/config.rs:34-37 | replaces the hostnames and nothing else |
| Config.WithIdleTimeout | crates/common/src/config.rs:39-42 | replaces the idle timeout and nothing else |
| Config.BuildersCommute | crates/common/src/config.rs:34-42 | the two builders touch disjoint fields, so their order does not matter |
| Config.DefaultClientConfig | crates/common/src/config.rs:56-64 | server 127.0.0.1:4433, name `localhost`, verification off |
| Config.NewClientConfig | crates/common/src/config.rs:67-73 | the given address and name; verification stays off |
| Config.Secure | crates/common/src/config.rs:75-78 | verification on, nothing else changed |
| Config.SecureIdempotent | crates/common/src/config.rs:75-78 | `secure()` twice is `secure()` once |
| Config.SecureClientFromNew | crates/common/src/config.rs:67-78 | a client built by `new` and made secure has exactly the given address and name, with verification on |
| HexInput.TrimSlice | crates/web/src/app.rs:15 | the trim is a slice of the input after its leading whitespace, and only whitespace follows it |
| HexInput.TrimEnds | crates/web/src/app.rs:15 | the trim neither starts nor ends with whitespace (`char::is_whitespace`) |
| HexInput.TrimEmpty | crates/web/src/app.rs:15 | an input trims to nothing exactly when it is all whitespace |
| HexInput.RemoveSeparators | crates/web/src/app.rs:15 | the characters left are exactly those that are neither space nor colon; a single character is dropped if it is a separator and kept otherwise; separator-free text is unchanged |
| HexInput.RemoveSeparatorsAppend | crates/web/src/app.rs:15 | removal distributes over concatenation, so with the one-character case every non-separator is kept, in its original order |
| HexInput.RemoveSeparatorsCounts | crates/web/src/app.rs:15 | each non-separator character occurs in the result as often as in the input, and no separator remains |
| HexInput.ParseTwo | crates/web/src/app.rs:21 | a two-character slice is a byte exactly when it is two hex digits (value 16a+b) or `+` and one hex digit |
| HexInput.ParseFrom | crates/web/src/app.rs:19-22 | the pairs give bytes exactly when every pair is a byte, with byte k the value of pair k; a panic exactly when the first pair that is not a byte is a slice that cuts a character |
| HexInput.ParseHex | crates/web/src/app.rs:14-23 | an odd UTF-8 length of the cleaned input is `None`; a result has half that many bytes |
| HexInput.ParseHexAscii | crates/web/src/app.rs:14-23 | on ASCII input, `parse_hex` is the plain pairwise reading of the trimmed, separator-free string |
| HexInput.AsciiNeverPanics | crates/web/src/app.rs:19-22 | ASCII input never makes the slicing panic |
| HexInput.HexJoinRoundTrip | crates/web/src/app.rs:14-23 | hex pairs of any bytes, in either case, joined by any run of spaces and colons, parse back to those bytes |
| HexInput.LowerHexRoundTrip | crates/server/src/server.rs:28 | the hex the server prints for a digest parses back to the digest |
| HexInput.CertHashGate | crates/web/src/app.rs:51-67 | an empty field pins nothing; a parse failure and a wrong length are refused with their own messages; exactly a 32-byte parse is pinned; a panicking parse aborts |
| HexInput.GatePinsPrintedDigest | crates/web/src/app.rs:51-53 | the 32-byte digest the server prints, pasted plain or with separators, is pinned as that digest |
| HexInput.GateRefusesOtherLengths | crates/web/src/app.rs:54-58 | the lowercase hex of any nonzero number of bytes other than 32 is refused with the length message |
| HexInput.GateRefusesBlanks | crates/web/src/app.rs:51-58 | any non-empty field made only of spaces and colons is not "no hash": it parses to no bytes and is refused for its length |
| HexInput.GateRefusesWhitespace | crates/web/src/app.rs:51-58 | likewise any non-empty field made only of whitespace is refused for its length |
| HexInput.ParseHexPanicsInsideCharacter | crates/web/src/app.rs:21 | `"0é0"` has an even byte length, but its first slice ends inside `é`, so the parse panics and the connect handler aborts |
| HexInput.ParseHexChecked | crates/web/src/app.rs:14-23 | the corrected parse never panics |
| HexInput.ParseHexCheckedAgrees | crates/web/src/app.rs:14-23 | the corrected parse equals `parse_hex` wherever that does not panic, and says "not hex" where it does |
| HexInput.CertHashGateChecked | crates/web/src/app.rs:51-67 | the gate over the corrected parse never aborts; an empty field pins nothing; a pinned hash is 32 bytes |
| HexInput.CheckedGateAgrees | crates/web/src/app.rs:51-67 | the corrected gate decides as the written one wherever that does not abort; where it aborts, the corrected gate refuses as invalid hex |

## Left out

- QUIC, TLS and the h3 machinery are not modelled: endpoint setup, ALPN list, transport and keep-alive settings, certificate generation (`tls.rs` is not part of this model), and `WebTransportSession::accept`. A CONNECT ends the connection loop with `SessionTakeover`. The session itself is modelled separately by `HandleSession`.
- Concurrency: `tokio::spawn` is modelled as an emitted action or a worker's own trace. The `select!` loop is modelled as a run over one interleaving of its events, given as a sequence. Any interleaving can be supplied.
- The `else` arm of the session's `select!` is not modelled: every branch pattern is irrefutable, so it cannot fire.
- Time: sleeps are `Sleep` frames (on a request stream) or `Sleep` operations (on a WebTransport send half) carrying their duration. The wall clock and Unix time are parameters (`now`, `unix`) indexed by iteration.
- Write failures are not modelled: `send_data`, `write_all`, `flush` and `finish` always succeed in the model, so the `?` early exits after a failed write are not modelled. Read failures and accept failures are modelled.
- Logging (`info!`, `debug!`, `error!`), including the `{:02x?}` debug print of the digest and `router.routes()` in the startup log. Only the `{:02x}` hex string is modelled.
- The parse of the literal `"127.0.0.1:4433"` is modelled by its value (`Config.DefaultAddr`). The unwrap cannot fail on that literal.
- Handlers.ApiInfo: the body is built from the advertised endpoint list rather than compared with the source's single literal character by character. Its text is the same, but the model proves no literal equality.
- The client binary (`crates/client`), the browser transport (`transport.rs`) and the rest of the browser app (signals, messages, the view, send and datagram buttons) are not part of this model. Only `parse_hex` and the hash check are modelled.
- Handlers ignore their request, so requests carry only method, path and `:protocol`. Header and URI parsing beyond the path is not modelled.

## Findings

| source | as written | input that shows it | evidently intended | confidence | as-written member | corrected member |
|---|---|---|---|---|---|---|
| crates/web/src/app.rs:21 | `parse_hex` checks only that the cleaned string's byte length is even, then slices `&hex[i..i + 2]` at byte offsets, which panics when a slice end falls inside a multi-byte character | `"0é0"` (four bytes; the first slice ends inside `é`) | report invalid hex (`None`), so the connect handler shows the invalid-hex message | high, not executed | HexInput.ParseHexPanicsInsideCharacter | HexInput.ParseHexChecked |
