/**
 The path router of `crates/server/src/router.rs`: a finite map from exact
 path strings to a handler tagged `Rest` or `Stream`. Handlers themselves are
 opaque here; `R` and `S` stand for the REST and stream handler values.
 */
module Router {
  import opened Wrappers

  /** What a REST handler produces: a body and a static content type. */
  datatype RestResponse = RestResponse(body: string, contentType: string)

  const TextPlain := "text/plain"
  const ApplicationJson := "application/json"

  /** `RestResponse::text`. */
  function TextResponse(body: string): (r: RestResponse)
    ensures r.body == body && r.contentType == TextPlain
  {
    RestResponse(body, TextPlain)
  }

  /** `RestResponse::json`. */
  function JsonResponse(body: string): (r: RestResponse)
    ensures r.body == body && r.contentType == ApplicationJson
  {
    RestResponse(body, ApplicationJson)
  }

  datatype Handler<R, S> = Rest(rest: R) | Stream(stream: S)

  datatype Router<R, S> = Router(routes: map<string, Handler<R, S>>)

  /** `Router::get`: exact lookup, no prefix matching or normalisation. */
  function Get<R, S>(rt: Router<R, S>, path: string): (r: Option<Handler<R, S>>)
    ensures r.Some? <==> path in rt.routes
    ensures r.Some? ==> rt.routes[path] == r.value
  {
    if path in rt.routes then Some(rt.routes[path]) else None
  }

  /** `Router::new`: no route resolves. */
  function New<R, S>(): (rt: Router<R, S>)
    ensures forall p :: Get(rt, p) == None
    ensures |rt.routes| == 0
  {
    Router(map[])
  }

  /** `Router::route`: `path` now resolves to `Rest(h)`, replacing whatever it had; other paths keep theirs. */
  function Route<R, S>(rt: Router<R, S>, path: string, h: R): (r: Router<R, S>)
    ensures Get(r, path) == Some(Rest(h))
    ensures forall q :: q != path ==> Get(r, q) == Get(rt, q)
    ensures r.routes.Keys == rt.routes.Keys + {path}
  {
    Router(rt.routes[path := Rest(h)])
  }

  /** `Router::stream`: `path` now resolves to `Stream(h)`, replacing whatever it had; other paths keep theirs. */
  function AddStream<R, S>(rt: Router<R, S>, path: string, h: S): (r: Router<R, S>)
    ensures Get(r, path) == Some(Stream(h))
    ensures forall q :: q != path ==> Get(r, q) == Get(rt, q)
    ensures r.routes.Keys == rt.routes.Keys + {path}
  {
    Router(rt.routes[path := Stream(h)])
  }

  /** `Router::contains`: a path is contained exactly when `get` finds a handler for it. */
  function Contains<R, S>(rt: Router<R, S>, path: string): (b: bool)
    ensures b <==> Get(rt, path).Some?
  {
    path in rt.routes
  }

  /** `Router::routes`: every registered path exactly once, nothing else, in no particular order. */
  method Routes<R, S>(rt: Router<R, S>) returns (paths: seq<string>)
    ensures forall p :: p in paths <==> p in rt.routes
    ensures forall i, j :: 0 <= i < j < |paths| ==> paths[i] != paths[j]
    ensures |paths| == |rt.routes|
  {
    paths := [];
    var left := rt.routes.Keys;
    while left != {}
      invariant left <= rt.routes.Keys
      invariant forall p :: p in paths <==> p in rt.routes && p !in left
      invariant forall i, j :: 0 <= i < j < |paths| ==> paths[i] != paths[j]
      invariant |paths| + |left| == |rt.routes|
      decreases |left|
    {
      var p :| p in left;
      paths := paths + [p];
      left := left - {p};
    }
  }

  // ---------------------------------------------------------------------------
  // A sequence of builder calls
  // ---------------------------------------------------------------------------

  /** One builder call: `.route(path, h)` or `.stream(path, h)`. */
  datatype Registration<R, S> = Registration(path: string, handler: Handler<R, S>)

  function Register<R, S>(rt: Router<R, S>, reg: Registration<R, S>): (r: Router<R, S>)
    ensures Get(r, reg.path) == Some(reg.handler)
    ensures forall q :: q != reg.path ==> Get(r, q) == Get(rt, q)
    ensures r.routes.Keys == rt.routes.Keys + {reg.path}
  {
    match reg.handler
    case Rest(h) => Route(rt, reg.path, h)
    case Stream(h) => AddStream(rt, reg.path, h)
  }

  /** Applies the builder calls in order. */
  function Build<R, S>(rt: Router<R, S>, regs: seq<Registration<R, S>>): Router<R, S>
    decreases |regs|
  {
    if |regs| == 0 then rt else Register(Build(rt, regs[..|regs| - 1]), regs[|regs| - 1])
  }

  /** The handler of the last registration for `path`, if any. */
  function LastFor<R, S>(regs: seq<Registration<R, S>>, path: string): Option<Handler<R, S>>
    decreases |regs|
  {
    if |regs| == 0 then None
    else if regs[|regs| - 1].path == path then Some(regs[|regs| - 1].handler)
    else LastFor(regs[..|regs| - 1], path)
  }

  /**
   Last registration wins: after a run of builder calls, a path resolves to
   the handler of its last registration, whichever variant it was, and to
   what it resolved to before when it was never registered.
   */
  lemma {:induction false} BuildLastWins<R, S>(rt: Router<R, S>, regs: seq<Registration<R, S>>, path: string)
    ensures Get(Build(rt, regs), path) == if LastFor(regs, path).Some? then LastFor(regs, path) else Get(rt, path)
    decreases |regs|
  {
    if |regs| > 0 {
      BuildLastWins(rt, regs[..|regs| - 1], path);
    }
  }

  /** The paths a run of builder calls names. */
  function Paths<R, S>(regs: seq<Registration<R, S>>): set<string> {
    set i | 0 <= i < |regs| :: regs[i].path
  }

  /** One more builder call names one more path. */
  lemma PathsSnoc<R, S>(regs: seq<Registration<R, S>>)
    requires |regs| > 0
    ensures Paths(regs) == Paths(regs[..|regs| - 1]) + {regs[|regs| - 1].path}
  {
    var init := regs[..|regs| - 1];
    forall p ensures p in Paths(regs) <==> p in Paths(init) + {regs[|regs| - 1].path} {
      if p in Paths(regs) {
        var i :| 0 <= i < |regs| && regs[i].path == p;
        if i < |init| {
          assert init[i].path == p;
        }
      }
      if p in Paths(init) {
        var i :| 0 <= i < |init| && init[i].path == p;
        assert regs[i].path == p;
      }
    }
  }

  /** The registered paths are those of the starting router plus every path a builder call names. */
  lemma {:induction false} BuildKeys<R, S>(rt: Router<R, S>, regs: seq<Registration<R, S>>)
    ensures Build(rt, regs).routes.Keys == rt.routes.Keys + Paths(regs)
    decreases |regs|
  {
    if |regs| > 0 {
      var init := regs[..|regs| - 1];
      BuildKeys(rt, init);
      PathsSnoc(regs);
      assert Build(rt, regs) == Register(Build(rt, init), regs[|regs| - 1]);
    }
  }

  /** Lookup is exact: a router holding only `p` resolves `q` exactly when `q` is `p`. */
  lemma ExactMatchOnly<R, S>(p: string, h: Handler<R, S>, q: string)
    ensures Get(Register(New(), Registration(p, h)), q).Some? <==> q == p
  {
  }
}
