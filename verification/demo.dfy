/**
 The server binary's wiring (`crates/server/src/main.rs`): the demo
 configuration and the route table that puts the handlers of `handlers.rs`
 behind five paths. Handlers are named by tags; `RunRest` and `RunStream`
 give their behaviour, the stream handlers reading the two clocks.
 */
module Demo {
  import opened Wrappers
  import opened Text
  import opened Config
  import opened Router
  import opened Http
  import opened Handlers
  import Server

  // ---------------------------------------------------------------------------
  // Configuration
  // ---------------------------------------------------------------------------

  const DemoHostnames: seq<string> := ["localhost", "127.0.0.1"]
  const DemoIdleTimeoutSecs := 10

  /**
   The demo configuration: the default bind address, a certificate for
   `localhost` and `127.0.0.1`, and a ten-second idle timeout.
   */
  function DemoConfig(): (c: ServerConfig)
    ensures c.bindAddr == DefaultAddr && c.bindAddr.port == 4433
    ensures c.certHostnames == DemoHostnames
    ensures c.idleTimeoutSecs == DemoIdleTimeoutSecs
    ensures c.idleTimeoutSecs < DefaultServerConfig().idleTimeoutSecs
  {
    WithIdleTimeout(WithHostnames(DefaultServerConfig(), DemoHostnames), DemoIdleTimeoutSecs)
  }

  // ---------------------------------------------------------------------------
  // Route table
  // ---------------------------------------------------------------------------

  datatype RestName = IndexHandler | HealthHandler | ApiInfoHandler
  datatype StreamName = TimeStreamHandler | CounterStreamHandler

  function RunRest(h: RestName): RestResponse {
    match h
    case IndexHandler => Index()
    case HealthHandler => Health()
    case ApiInfoHandler => ApiInfo()
  }

  /** A stream handler's trace, given the clock readings it makes. */
  function StreamTrace(h: StreamName, now: nat -> string, unix: nat -> i64): seq<Frame> {
    match h
    case TimeStreamHandler => TimeStream(now)
    case CounterStreamHandler => CounterStream(unix)
  }

  function RunStream(now: nat -> string, unix: nat -> i64): StreamName -> seq<Frame> {
    (h: StreamName) => StreamTrace(h, now, unix)
  }

  /** Three REST routes, then two stream routes, in the order `main` registers them. */
  const DemoRoutes: seq<Registration<RestName, StreamName>> := [
    Registration("/", Rest(IndexHandler)),
    Registration("/health", Rest(HealthHandler)),
    Registration("/api/info", Rest(ApiInfoHandler)),
    Registration("/stream/time", Stream(TimeStreamHandler)),
    Registration("/stream/counter", Stream(CounterStreamHandler))
  ]

  const DemoPaths: set<string> := {"/", "/health", "/api/info", "/stream/time", "/stream/counter"}

  /** The router `main` builds: each path resolves to its handler and nothing else resolves. */
  function DemoRouter(): (rt: Router<RestName, StreamName>)
    ensures Get(rt, "/") == Some(Rest(IndexHandler))
    ensures Get(rt, "/health") == Some(Rest(HealthHandler))
    ensures Get(rt, "/api/info") == Some(Rest(ApiInfoHandler))
    ensures Get(rt, "/stream/time") == Some(Stream(TimeStreamHandler))
    ensures Get(rt, "/stream/counter") == Some(Stream(CounterStreamHandler))
    ensures rt.routes.Keys == DemoPaths
  {
    DemoPathLengths();
    var r0 := New();
    var r1 := Route(r0, "/", IndexHandler);
    var r2 := Route(r1, "/health", HealthHandler);
    var r3 := Route(r2, "/api/info", ApiInfoHandler);
    var r4 := AddStream(r3, "/stream/time", TimeStreamHandler);
    AddStream(r4, "/stream/counter", CounterStreamHandler)
  }

  /** The builder chain is the registration list applied in order. */
  lemma DemoRouterIsBuild()
    ensures DemoRouter() == Build(New(), DemoRoutes)
  {
    var regs := DemoRoutes;
    FiveCallChain(New(), regs[0], regs[1], regs[2], regs[3], regs[4]);
    assert regs == [regs[0], regs[1], regs[2], regs[3], regs[4]];
  }

  /** Five builder calls in a row are the registration list of those five calls. */
  lemma FiveCallChain<R, S>(rt: Router<R, S>, a: Registration<R, S>, b: Registration<R, S>,
                            c: Registration<R, S>, d: Registration<R, S>, e: Registration<R, S>)
    ensures Build(rt, [a, b, c, d, e]) == Register(Register(Register(Register(Register(rt, a), b), c), d), e)
  {
    assert [a][..0] == [];
    assert Build(rt, [a]) == Register(rt, a);
    assert [a, b][..1] == [a];
    assert Build(rt, [a, b]) == Register(Build(rt, [a]), b);
    assert [a, b, c][..2] == [a, b];
    assert Build(rt, [a, b, c]) == Register(Build(rt, [a, b]), c);
    assert [a, b, c, d][..3] == [a, b, c];
    assert Build(rt, [a, b, c, d]) == Register(Build(rt, [a, b, c]), d);
    assert [a, b, c, d, e][..4] == [a, b, c, d];
  }

  /** The five demo paths have lengths 1, 7, 9, 12 and 15, so no two are equal. */
  lemma DemoPathLengths()
    ensures |"/"| == 1 && |"/health"| == 7 && |"/api/info"| == 9
    ensures |"/stream/time"| == 12 && |"/stream/counter"| == 15
  {
  }

  lemma DemoPathsCount()
    ensures |DemoPaths| == 5
  {
    DemoPathLengths();
  }

  /** Exactly five paths are routed, and they are the ones `api_info` advertises. */
  lemma AdvertisedAreRouted()
    ensures |DemoRouter().routes| == 5
    ensures forall p :: p in AdvertisedEndpoints <==> Contains(DemoRouter(), p)
  {
    var rt := DemoRouter();
    DemoPathsCount();
    assert |rt.routes| == |rt.routes.Keys|;
    assert forall p :: p in AdvertisedEndpoints <==> p in DemoPaths;
  }

  // ---------------------------------------------------------------------------
  // Serving an ordinary request
  // ---------------------------------------------------------------------------

  /** The trace an ordinary (non-upgrade) request gets from the demo server. */
  function ServeRequest(req: Server.Request, now: nat -> string, unix: nat -> i64): seq<Frame> {
    Server.HandleRequest(DemoRouter(), req, RunRest, RunStream(now, unix))
  }

  /** Both stream handlers answer with a complete 200 response. */
  lemma StreamsWellFramed(now: nat -> string, unix: nat -> i64)
    ensures forall h :: WellFramed(RunStream(now, unix)(h)) && Status(RunStream(now, unix)(h)) == 200
  {
    forall h ensures WellFramed(RunStream(now, unix)(h)) && Status(RunStream(now, unix)(h)) == 200 {
      match h
      case TimeStreamHandler =>
      case CounterStreamHandler =>
    }
  }

  /**
   Every ordinary request gets a complete response, and it is a 404 exactly
   when its path is not one of the five routes, whatever its method.
   */
  lemma ServeRequestStatus(req: Server.Request, now: nat -> string, unix: nat -> i64)
    ensures WellFramed(ServeRequest(req, now, unix))
    ensures Status(ServeRequest(req, now, unix)) == 404 <==> req.path !in DemoPaths
  {
    StreamsWellFramed(now, unix);
    Server.HandleRequestStatus(DemoRouter(), req, RunRest, RunStream(now, unix));
  }

  /** `GET /health` gets the JSON health document with its exact length. */
  lemma HealthRequest(now: nat -> string, unix: nat -> i64)
    ensures var t := ServeRequest(Server.Request(Server.GET, "/health", None), now, unix);
      && WellFramed(t) && Status(t) == 200
      && ContentType(t) == Some(ApplicationJson)
      && DataFrames(t) == [HealthBody]
      && DeclaredLength(t) == Some(Utf8Len(HealthBody))
  {
    ServeRestRoute(Server.Request(Server.GET, "/health", None), HealthHandler, now, unix);
    HealthFraming();
  }

  lemma HealthFraming()
    ensures var t := Server.RestFraming(RunRest(HealthHandler));
      && WellFramed(t) && Status(t) == 200
      && ContentType(t) == Some(ApplicationJson)
      && DataFrames(t) == [HealthBody]
      && DeclaredLength(t) == Some(Utf8Len(HealthBody))
  {
    var resp := Health();
    assert RunRest(HealthHandler) == resp;
    assert resp.body == HealthBody && resp.contentType == ApplicationJson;
  }

  /** A request for a REST route gets that handler's response, framed. */
  lemma ServeRestRoute(req: Server.Request, h: RestName, now: nat -> string, unix: nat -> i64)
    requires Get(DemoRouter(), req.path) == Some(Rest(h))
    ensures ServeRequest(req, now, unix) == Server.RestFraming(RunRest(h))
  {
    var rt := DemoRouter();
    assert Contains(rt, req.path) && rt.routes[req.path] == Rest(h);
  }

  /** A request for a stream route gets exactly that stream handler's trace. */
  lemma ServeStreamRoute(req: Server.Request, h: StreamName, now: nat -> string, unix: nat -> i64)
    requires Get(DemoRouter(), req.path) == Some(Stream(h))
    ensures ServeRequest(req, now, unix) == StreamTrace(h, now, unix)
  {
    var rt := DemoRouter();
    assert Contains(rt, req.path) && rt.routes[req.path] == Stream(h);
    assert RunStream(now, unix)(h) == StreamTrace(h, now, unix);
  }

  /** `GET /stream/counter` gets the ten NDJSON lines. */
  lemma CounterRequest(now: nat -> string, unix: nat -> i64)
    ensures ServeRequest(Server.Request(Server.GET, "/stream/counter", None), now, unix) == CounterStream(unix)
    ensures DataFrames(ServeRequest(Server.Request(Server.GET, "/stream/counter", None), now, unix)) == CounterLines(unix)
  {
    var req := Server.Request(Server.GET, "/stream/counter", None);
    ServeStreamRoute(req, CounterStreamHandler, now, unix);
    var t := CounterStream(unix);
    assert StreamTrace(CounterStreamHandler, now, unix) == t;
    assert DataFrames(t) == CounterLines(unix);
  }

  /**
   The WebTransport path is not a route: only an extended CONNECT upgrades,
   and any other request for `/webtransport` is answered 404.
   */
  lemma WebTransportPathNotRouted(req: Server.Request, now: nat -> string, unix: nat -> i64)
    requires req.path == "/webtransport" && !Server.IsSessionUpgrade(req)
    ensures Server.Decide(DemoRouter(), req) == Server.NotFound
    ensures ServeRequest(req, now, unix) == Server.NotFoundFraming()
  {
    NotADemoPath(req.path);
    assert !Contains(DemoRouter(), req.path);
  }

  /** A path of any length other than 1, 7, 9, 12 or 15 is not a demo route. */
  lemma NotADemoPath(p: string)
    requires |p| != 1 && |p| != 7 && |p| != 9 && |p| != 12 && |p| != 15
    ensures p !in DemoPaths
  {
    DemoPathLengths();
  }
}
