/**
 The request side of `crates/server/src/server.rs`: the per-request
 dispatch decision, REST and not-found framing, the per-connection accept
 loop, the classification of connection errors, and the lowercase hex
 rendering of the certificate digest.
 */
module Server {
  import opened Wrappers
  import opened Text
  import opened Router
  import opened Http
  import opened EventLoop

  /** `http::Method`: the nine standard methods and extension methods. */
  datatype Method = GET | HEAD | POST | PUT | DELETE | CONNECT | OPTIONS | TRACE | PATCH | Extension(name: string)

  /** A resolved request: its method, URI path and `:protocol` pseudo-header, if any. */
  datatype Request = Request(verb: Method, path: string, protocol: Option<string>)

  /** The extended-CONNECT protocol value of a WebTransport session. */
  const WebTransportProtocol := "webtransport"

  /** Extended CONNECT asking for a WebTransport session. */
  predicate IsSessionUpgrade(req: Request) {
    req.verb == CONNECT && req.protocol == Some(WebTransportProtocol)
  }

  // ---------------------------------------------------------------------------
  // Per-request decision and framing
  // ---------------------------------------------------------------------------

  datatype Decision<R, S> = UpgradeSession | ServeRest(rest: R) | ServeStream(stream: S) | NotFound

  /**
   What happens to one resolved request: a WebTransport CONNECT takes the
   connection over whatever its path; any other request is routed by its path.
   */
  function Decide<R, S>(rt: Router<R, S>, req: Request): (d: Decision<R, S>)
    ensures d.UpgradeSession? <==> IsSessionUpgrade(req)
    ensures !IsSessionUpgrade(req) ==> (d.NotFound? <==> !Contains(rt, req.path))
    ensures d.ServeRest? ==> Get(rt, req.path) == Some(Rest(d.rest))
    ensures d.ServeStream? ==> Get(rt, req.path) == Some(Stream(d.stream))
  {
    if IsSessionUpgrade(req) then UpgradeSession
    else match Get(rt, req.path)
      case Some(Rest(h)) => ServeRest(h)
      case Some(Stream(h)) => ServeStream(h)
      case None => NotFound
  }

  const NotFoundBody := "{\"error\": \"Not Found\"}"

  /** The 404 body is 22 ASCII characters, so 22 bytes. */
  lemma NotFoundBodyLength()
    ensures Utf8Len(NotFoundBody) == 22
  {
    assert IsAscii(NotFoundBody);
    assert |NotFoundBody| == 22;
  }

  /** `handle_rest_request`: status 200, the handler's content type and body length, the body once, finish. */
  function RestFraming(resp: RestResponse): (t: seq<Frame>)
    ensures WellFramed(t) && Status(t) == 200
    ensures ContentType(t) == Some(resp.contentType)
    ensures DataFrames(t) == [resp.body]
    ensures DeclaredLength(t) == Some(Utf8Len(resp.body))
  {
    SingleBodyResponse(200, resp.contentType, resp.body)
  }

  /** `handle_not_found`: status 404 with the fixed 22-byte JSON error body. */
  function NotFoundFraming(): (t: seq<Frame>)
    ensures WellFramed(t) && Status(t) == 404
    ensures ContentType(t) == Some(ApplicationJson)
    ensures Body(t) == NotFoundBody
    ensures DeclaredLength(t) == Some(22) == Some(Utf8Len(Body(t)))
  {
    NotFoundBodyLength();
    SingleBodyResponse(404, ApplicationJson, NotFoundBody)
  }

  /**
   `handle_request`: the trace written on the request's stream. REST
   handlers are run through `runRest` and framed here; stream handlers own
   the stream and their trace is `runStream`'s.
   */
  function HandleRequest<R, S>(rt: Router<R, S>, req: Request, runRest: R -> RestResponse, runStream: S -> seq<Frame>)
    : (t: seq<Frame>)
    ensures !Contains(rt, req.path) ==> t == NotFoundFraming()
    ensures Contains(rt, req.path) && rt.routes[req.path].Rest? ==> t == RestFraming(runRest(rt.routes[req.path].rest))
    ensures Contains(rt, req.path) && rt.routes[req.path].Stream? ==> t == runStream(rt.routes[req.path].stream)
  {
    match Get(rt, req.path)
    case Some(Rest(h)) => RestFraming(runRest(h))
    case Some(Stream(h)) => runStream(h)
    case None => NotFoundFraming()
  }

  /**
   When every stream handler writes a well-framed 200 response, every
   ordinary request gets a well-framed response, and it is a 404 exactly
   when its path is not registered.
   */
  lemma HandleRequestStatus<R, S>(rt: Router<R, S>, req: Request, runRest: R -> RestResponse, runStream: S -> seq<Frame>)
    requires forall s :: WellFramed(runStream(s)) && Status(runStream(s)) == 200
    ensures WellFramed(HandleRequest(rt, req, runRest, runStream))
    ensures Status(HandleRequest(rt, req, runRest, runStream)) == 404 <==> !Contains(rt, req.path)
  {
    var t := HandleRequest(rt, req, runRest, runStream);
    match Get(rt, req.path)
    case Some(Rest(h)) =>
      assert t == RestFraming(runRest(h));
    case Some(Stream(h)) =>
      assert t == runStream(h);
      assert WellFramed(runStream(h)) && Status(runStream(h)) == 200;
    case None =>
      assert t == NotFoundFraming();
  }

  // ---------------------------------------------------------------------------
  // Connection errors
  // ---------------------------------------------------------------------------

  datatype ErrorClass = IdleTimeout | GracefulClose | ConnectionReset | OtherError

  /**
   How an accept error is reported, decided on its debug text by substring
   with the priority timeout, graceful close, reset, other.
   */
  function Classify(message: string): (c: ErrorClass)
    ensures c == IdleTimeout <==> HasSubstring(message, "Timeout")
    ensures c == GracefulClose <==>
      !HasSubstring(message, "Timeout") && (HasSubstring(message, "H3_NO_ERROR") || HasSubstring(message, "ApplicationClose"))
    ensures c == OtherError <==>
      !HasSubstring(message, "Timeout") && !HasSubstring(message, "H3_NO_ERROR") && !HasSubstring(message, "ApplicationClose")
      && !HasSubstring(message, "Reset") && !HasSubstring(message, "Closed")
  {
    if HasSubstring(message, "Timeout") then IdleTimeout
    else if HasSubstring(message, "H3_NO_ERROR") || HasSubstring(message, "ApplicationClose") then GracefulClose
    else if HasSubstring(message, "Reset") || HasSubstring(message, "Closed") then ConnectionReset
    else OtherError
  }

  /** A timeout anywhere in the message wins over every other marker. */
  lemma TimeoutWins(before: string, after: string)
    ensures Classify(before + "Timeout" + after) == IdleTimeout
  {
    ContainsInfix(before, "Timeout", after);
  }

  /**
   An application close is graceful even though its debug text
   (`ApplicationClosed`) also contains the reset marker `Closed`.
   */
  lemma ApplicationClosedIsGraceful(before: string, after: string)
    requires !HasSubstring(before + "ApplicationClosed" + after, "Timeout")
    ensures Classify(before + "ApplicationClosed" + after) == GracefulClose
  {
    assert before + "ApplicationClosed" + after == before + "ApplicationClose" + ("d" + after);
    ContainsInfix(before, "ApplicationClose", "d" + after);
  }

  /** A reset marker only counts when no timeout or close marker is present. */
  lemma ResetMarker(before: string, marker: string, after: string)
    requires marker == "Reset" || marker == "Closed"
    requires var m := before + marker + after;
      !HasSubstring(m, "Timeout") && !HasSubstring(m, "H3_NO_ERROR") && !HasSubstring(m, "ApplicationClose")
    ensures Classify(before + marker + after) == ConnectionReset
  {
    ContainsInfix(before, marker, after);
  }

  // ---------------------------------------------------------------------------
  // The per-connection accept loop
  // ---------------------------------------------------------------------------

  /**
   One result of `accept` on the HTTP/3 connection: a request whose
   resolution gave a request (or failed, None), a graceful end of requests
   (`Ok(None)`), or an error with its debug text.
   */
  datatype Inbound = Incoming(resolved: Option<Request>) | NoMoreRequests | AcceptFailed(message: string)

  datatype ConnectionEnd = SessionTakeover(request: Request) | ClosedByPeer | Failed(errorClass: ErrorClass)

  /** The events that end the loop. */
  predicate EndsConnection(ev: Inbound) {
    || ev.NoMoreRequests?
    || ev.AcceptFailed?
    || (ev.Incoming? && ev.resolved.Some? && IsSessionUpgrade(ev.resolved.value))
  }

  /** Why an ending event ends the loop. */
  function EndOf(ev: Inbound): ConnectionEnd
    requires EndsConnection(ev)
  {
    match ev
    case Incoming(r) => SessionTakeover(r.value)
    case NoMoreRequests => ClosedByPeer
    case AcceptFailed(m) => Failed(Classify(m))
  }

  /**
   One turn of the loop. A resolution failure is skipped; an ordinary
   request is spawned to `handle_request`; a WebTransport CONNECT hands the
   connection to the session and returns; `Ok(None)` and errors break.
   */
  function ConnectionStep(ev: Inbound): (s: Step<Request, ConnectionEnd>)
    ensures s.Stop? <==> EndsConnection(ev)
    ensures s.Stop? ==> s.emitted == [] && s.reason == EndOf(ev)
    ensures s.Continue? && ev.resolved.Some? ==> s.emitted == [ev.resolved.value]
    ensures s.Continue? && ev.resolved.None? ==> s.emitted == []
  {
    match ev
    case Incoming(None) => Continue([])
    case Incoming(Some(req)) =>
      if IsSessionUpgrade(req) then Stop([], SessionTakeover(req)) else Continue([req])
    case NoMoreRequests => Stop([], ClosedByPeer)
    case AcceptFailed(m) => Stop([], Failed(Classify(m)))
  }

  /** The loop of `handle_connection` over a finite sequence of accept results. */
  function RunConnection(events: seq<Inbound>): Outcome<Request, ConnectionEnd> {
    Run(ConnectionStep, events)
  }

  /** The successfully resolved requests among `events`, in arrival order. */
  function Resolved(events: seq<Inbound>): seq<Request>
    decreases |events|
  {
    if |events| == 0 then []
    else
      var first := if events[0].Incoming? && events[0].resolved.Some? then [events[0].resolved.value] else [];
      first + Resolved(events[1..])
  }

  lemma {:induction false} EmittedIsResolved(events: seq<Inbound>)
    requires forall i :: 0 <= i < |events| ==> !EndsConnection(events[i])
    ensures Emitted(ConnectionStep, events) == Resolved(events)
    decreases |events|
  {
    if |events| > 0 {
      var ev := events[0];
      assert !EndsConnection(ev);
      EmittedIsResolved(events[1..]);
    }
  }

  /**
   While no ending event arrives, the loop keeps accepting: every resolved
   request is spawned, in arrival order, resolution failures are skipped,
   and no spawned request is a session upgrade.
   */
  lemma ConnectionKeepsAccepting(events: seq<Inbound>)
    requires forall i :: 0 <= i < |events| ==> !EndsConnection(events[i])
    ensures RunConnection(events) == Outcome(Resolved(events), |events|, None)
    ensures forall r :: r in RunConnection(events).emitted ==> !IsSessionUpgrade(r)
  {
    assert NoStop(ConnectionStep, events) by {
      forall i | 0 <= i < |events| ensures ConnectionStep(events[i]).Continue? {
        assert !EndsConnection(events[i]);
      }
    }
    RunWithoutStop(ConnectionStep, events);
    EmittedIsResolved(events);
    NoUpgradeResolved(events);
  }

  lemma {:induction false} NoUpgradeResolved(events: seq<Inbound>)
    requires forall i :: 0 <= i < |events| ==> !EndsConnection(events[i])
    ensures forall r :: r in Resolved(events) ==> !IsSessionUpgrade(r)
    decreases |events|
  {
    if |events| > 0 {
      assert !EndsConnection(events[0]);
      NoUpgradeResolved(events[1..]);
    }
  }

  /**
   The first ending event ends the loop with its reason: the requests before
   it have been spawned, and no later event is consumed or dispatched.
   */
  lemma ConnectionEndsAtFirstEnd(pre: seq<Inbound>, ev: Inbound, post: seq<Inbound>)
    requires forall i :: 0 <= i < |pre| ==> !EndsConnection(pre[i])
    requires EndsConnection(ev)
    ensures RunConnection(pre + [ev] + post) == Outcome(Resolved(pre), |pre| + 1, Some(EndOf(ev)))
  {
    assert NoStop(ConnectionStep, pre) by {
      forall i | 0 <= i < |pre| ensures ConnectionStep(pre[i]).Continue? {
        assert !EndsConnection(pre[i]);
      }
    }
    RunStopsAtFirstStop(ConnectionStep, pre, ev, post);
    EmittedIsResolved(pre);
    assert Resolved(pre) + [] == Resolved(pre);
  }

  // ---------------------------------------------------------------------------
  // Hex rendering of the certificate digest
  // ---------------------------------------------------------------------------

  /** The hex digit for a value below 16, in either case. */
  function HexDigit(v: nat, upper: bool): (c: char)
    requires v < 16
  {
    if v < 10 then (v + '0' as int) as char
    else if upper then (v - 10 + 'A' as int) as char
    else (v - 10 + 'a' as int) as char
  }

  /** `format!("{:02x}", b)` (or `{:02X}` when `upper`): exactly two digits, high nibble first. */
  function HexPair(b: byte, upper: bool): (s: string) {
    [HexDigit(b / 16, upper), HexDigit(b % 16, upper)]
  }

  predicate IsLowerHexDigit(c: char) {
    '0' <= c <= '9' || 'a' <= c <= 'f'
  }

  /** The digest rendered as the server logs it: two lowercase hex digits per byte. */
  function LowerHex(bytes: seq<byte>): (s: string)
    ensures |s| == 2 * |bytes|
    ensures forall i :: 0 <= i < |s| ==> IsLowerHexDigit(s[i])
    decreases |bytes|
  {
    if |bytes| == 0 then "" else HexPair(bytes[0], false) + LowerHex(bytes[1..])
  }
}
