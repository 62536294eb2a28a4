/** The header policy of the serverless app's Lambda entry point
    (`handler.py`): what `lambda_handler` adds to the response the web
    application produced, and the response it builds when anything raises.

    The environment variables `ALLOWED_ORIGINS` and `ENVIRONMENT` are inputs
    (`None` when unset). A value the event or response may hold as `null`
    is a `Slot`, because reading through a `null` raises and so leads to the
    error response. */
module LambdaHandler {
  import opened Common
  import PyStr
  import Json

  type Headers = map<string, string>

  /** A dictionary entry that may be missing, present but `None`, or set. */
  datatype Slot<T> = Absent | Null | Present(value: T)

  /** The parts of the API Gateway event the handler reads. */
  datatype Event = Event(path: Slot<string>, headers: Slot<Headers>)

  /** The response dictionary: the handler touches only its headers. */
  datatype Response = Response(statusCode: int, headers: Slot<Headers>, body: string)

  const DefaultOrigins := "http://localhost:3000,http://localhost:8080"
  const ErrorDefaultOrigin := "http://localhost:3000"
  const StaticCache := "public, max-age=31536000"

  /** The headers set on every successful response, whatever the request. */
  const FixedHeaders: Headers := map[
    "Access-Control-Allow-Methods" := "GET, POST, PUT, DELETE, OPTIONS",
    "Access-Control-Allow-Headers" := "Content-Type, Authorization, X-Requested-With",
    "Access-Control-Allow-Credentials" := "true",
    "X-Content-Type-Options" := "nosniff",
    "X-Frame-Options" := "DENY",
    "X-XSS-Protection" := "1; mode=block",
    "Referrer-Policy" := "strict-origin-when-cross-origin",
    "Strict-Transport-Security" := "max-age=31536000; includeSubDomains"]

  /** `ALLOWED_ORIGINS.split(',')` with its default. */
  function AllowedOrigins(allowed: Option<string>): (r: seq<string>)
    ensures |r| >= 1
  {
    PyStr.Split(allowed.GetOr(DefaultOrigins), ',')
  }

  predicate IsDevelopment(environment: Option<string>) {
    environment == Some("development")
  }

  /** Whether the event's path starts with `/static/`. */
  predicate StaticPath(ev: Event) {
    ev.path.Present? && StartsWith(ev.path.value, "/static/")
  }

  /** The `origin` request header, `''` when there is none. */
  function Origin(h: Headers): string {
    if "origin" in h then h["origin"] else ""
  }

  /** The allowed origin sent back: the request's own when it is listed or
      in development, otherwise the first listed one. The `''` fallback of
      the source is kept but unreachable, because a split is never empty. */
  function AllowOrigin(origin: string, allowed: Option<string>, environment: Option<string>): (r: string)
    ensures r == origin <==> origin in AllowedOrigins(allowed) || IsDevelopment(environment) || origin == AllowedOrigins(allowed)[0]
    ensures r != origin ==> r == AllowedOrigins(allowed)[0]
  {
    var origins := AllowedOrigins(allowed);
    if origin in origins || IsDevelopment(environment) then origin
    else if |origins| > 0 then origins[0]
    else ""
  }

  /** The decoration steps for a given static-path verdict, allowed origin
      and set of fixed headers: Cache-Control (static paths only), then the
      origin, then the fixed headers over both. */
  function DecorateWith(h: Headers, isStatic: bool, acao: string, fixed: Headers): (d: Headers)
    ensures d.Keys == h.Keys + fixed.Keys + {"Access-Control-Allow-Origin"} + (if isStatic then {"Cache-Control"} else {})
  {
    var h1 := if isStatic then h["Cache-Control" := StaticCache] else h;
    h1["Access-Control-Allow-Origin" := acao] + fixed
  }

  /** The headers after decoration: the response's own (or none), then
      Cache-Control for static paths, the allowed origin, and the fixed
      headers. */
  function Decorate(h: Headers, ev: Event, origin: string, allowed: Option<string>, environment: Option<string>): (d: Headers)
    ensures d.Keys == h.Keys + Written(ev)
  {
    DecorateWith(h, StaticPath(ev), AllowOrigin(origin, allowed, environment), FixedHeaders)
  }

  /** The body of the error response, `json.dumps` of the two entries. */
  function ErrorBody(message: string): string {
    "{\"error\": \"Internal server error\", \"message\": " + Json.Quote(message) + "}"
  }

  /** The response `lambda_handler` returns when anything raises: status
      500, a JSON content type, the first configured origin (with its own
      default), and the exception text only in development. */
  function ErrorResponse(allowed: Option<string>, environment: Option<string>, errorText: string): (r: Response)
    ensures r.statusCode == 500
    ensures r.headers.Present? && r.headers.value.Keys == {"Content-Type", "Access-Control-Allow-Origin"}
    ensures r.headers.value["Content-Type"] == "application/json"
    ensures r.headers.value["Access-Control-Allow-Origin"] == PyStr.Split(allowed.GetOr(ErrorDefaultOrigin), ',')[0]
    ensures r.body == ErrorBody(if IsDevelopment(environment) then errorText else "An unexpected error occurred")
  {
    var first := PyStr.Split(allowed.GetOr(ErrorDefaultOrigin), ',')[0];
    var message := if IsDevelopment(environment) then errorText else "An unexpected error occurred";
    Response(500, Present(map["Content-Type" := "application/json", "Access-Control-Allow-Origin" := first]), ErrorBody(message))
  }

  /** Without `ALLOWED_ORIGINS` the error response allows
      `http://localhost:3000`, not the two-origin default of the success
      path. */
  lemma ErrorDefaultAllowed(environment: Option<string>, errorText: string)
    ensures ErrorResponse(None, environment, errorText).headers.value["Access-Control-Allow-Origin"] == ErrorDefaultOrigin
  {
    assert ',' !in ErrorDefaultOrigin;
    PyStr.SplitNoSep(ErrorDefaultOrigin, ',');
  }

  /** `lambda_handler(event, context)`. `app` is what the web application
      returned, `None` when it raised; `errorText` is the text of whatever
      exception occurred. Reading a `null` path, request headers or
      response headers raises. */
  function Handle(
    ev: Event, app: Option<Response>, allowed: Option<string>, environment: Option<string>,
    errorText: string): (r: Response)
    ensures r.headers.Present?
    ensures app.None? || ev.path.Null? || ev.headers.Null? || app.value.headers.Null? ==>
      r == ErrorResponse(allowed, environment, errorText)
    ensures app.Some? && !ev.path.Null? && !ev.headers.Null? && !app.value.headers.Null? ==>
      var own := if app.value.headers.Present? then app.value.headers.value else map[];
      var origin := if ev.headers.Present? then Origin(ev.headers.value) else "";
      && r.statusCode == app.value.statusCode && r.body == app.value.body
      && r.headers.value.Keys == own.Keys + Written(ev)
      && (forall k :: k in own && k !in Written(ev) ==> r.headers.value[k] == own[k])
      && (forall k :: k in FixedHeaders ==> r.headers.value[k] == FixedHeaders[k])
      && r.headers.value["Access-Control-Allow-Origin"] == AllowOrigin(origin, allowed, environment)
      && ("Cache-Control" in r.headers.value && r.headers.value["Cache-Control"] == StaticCache <== StaticPath(ev))
      && (!StaticPath(ev) && app.value.headers.Absent? ==> "Cache-Control" !in r.headers.value)
  {
    if app.None? || ev.path.Null? || ev.headers.Null? || app.value.headers.Null? then
      ErrorResponse(allowed, environment, errorText)
    else
      var h := if app.value.headers.Present? then app.value.headers.value else map[];
      var origin := if ev.headers.Present? then Origin(ev.headers.value) else "";
      DecorateFacts(h, ev, origin, allowed, environment);
      app.value.(headers := Present(Decorate(h, ev, origin, allowed, environment)))
  }

  /** The keys the decoration writes. */
  function Written(ev: Event): set<string> {
    FixedHeaders.Keys + {"Access-Control-Allow-Origin"} + (if StaticPath(ev) then {"Cache-Control"} else {})
  }

  /** Neither header written ahead of the fixed ones is among them. */
  lemma FixedKeys()
    ensures "Access-Control-Allow-Origin" !in FixedHeaders && "Cache-Control" !in FixedHeaders
  {
  }

  /** The value the decoration steps leave under a key they cover. */
  function StepValue(h: Headers, isStatic: bool, acao: string, fixed: Headers, k: string): string
    requires k in h || k in fixed || k == "Access-Control-Allow-Origin" || (isStatic && k == "Cache-Control")
  {
    if k in fixed then fixed[k]
    else if k == "Access-Control-Allow-Origin" then acao
    else if k == "Cache-Control" && isStatic then StaticCache
    else h[k]
  }

  /** The decoration steps one key at a time: a fixed header wins, then the
      origin, then the static cache policy, else the response's own value. */
  lemma DecorateWithAt(h: Headers, isStatic: bool, acao: string, fixed: Headers, k: string)
    requires "Access-Control-Allow-Origin" !in fixed && "Cache-Control" !in fixed
    ensures var d := DecorateWith(h, isStatic, acao, fixed);
      k in d ==> d[k] == StepValue(h, isStatic, acao, fixed, k)
  {
  }

  /** The decoration steps are a fixed point. */
  lemma DecorateWithTwice(h: Headers, isStatic: bool, acao: string, fixed: Headers)
    requires "Access-Control-Allow-Origin" !in fixed && "Cache-Control" !in fixed
    ensures var d := DecorateWith(h, isStatic, acao, fixed);
      DecorateWith(d, isStatic, acao, fixed) == d
  {
    var d := DecorateWith(h, isStatic, acao, fixed);
    var d2 := DecorateWith(d, isStatic, acao, fixed);
    forall k | k in d ensures d2[k] == d[k] {
      DecorateWithAt(h, isStatic, acao, fixed, k);
      DecorateWithAt(d, isStatic, acao, fixed, k);
    }
  }

  /** Decoration keeps every header it does not write, writes nothing else,
      sets Cache-Control exactly for static paths and echoes the origin
      exactly when it is listed (exact match, no trimming) or in
      development. */
  lemma DecorateFacts(h: Headers, ev: Event, origin: string, allowed: Option<string>, environment: Option<string>)
    ensures var d := Decorate(h, ev, origin, allowed, environment);
      && d.Keys == h.Keys + Written(ev)
      && (forall k :: k in h && k !in Written(ev) ==> d[k] == h[k])
      && (forall k :: k in FixedHeaders ==> d[k] == FixedHeaders[k])
      && (StaticPath(ev) ==> d["Cache-Control"] == StaticCache)
      && (!StaticPath(ev) ==> ("Cache-Control" in d <==> "Cache-Control" in h))
      && (!StaticPath(ev) && "Cache-Control" in h ==> d["Cache-Control"] == h["Cache-Control"])
      && (d["Access-Control-Allow-Origin"] == origin <==>
            origin in AllowedOrigins(allowed) || IsDevelopment(environment) || origin == AllowedOrigins(allowed)[0])
      && (d["Access-Control-Allow-Origin"] != origin ==> d["Access-Control-Allow-Origin"] == AllowedOrigins(allowed)[0])
      && d["Access-Control-Allow-Origin"] == AllowOrigin(origin, allowed, environment)
  {
    var d := Decorate(h, ev, origin, allowed, environment);
    var acao := AllowOrigin(origin, allowed, environment);
    FixedKeys();
    forall k | k in h && k !in Written(ev) ensures d[k] == h[k] {
      DecorateWithAt(h, StaticPath(ev), acao, FixedHeaders, k);
    }
    DecorateWithAt(h, StaticPath(ev), acao, FixedHeaders, "Cache-Control");
    DecorateWithAt(h, StaticPath(ev), acao, FixedHeaders, "Access-Control-Allow-Origin");
  }

  /** Decorating an already decorated header map changes nothing: the
      policy is a fixed point. */
  lemma DecorateIdempotent(h: Headers, ev: Event, origin: string, allowed: Option<string>, environment: Option<string>)
    ensures var d := Decorate(h, ev, origin, allowed, environment);
      Decorate(d, ev, origin, allowed, environment) == d
  {
    FixedKeys();
    DecorateWithTwice(h, StaticPath(ev), AllowOrigin(origin, allowed, environment), FixedHeaders);
  }

  /** The comparison is exact: an origin listed after `", "` carries the
      space and is not echoed. */
  lemma OriginExactMatch(a: string, o: string)
    requires ',' !in a && ',' !in o && a != o
    ensures AllowOrigin(o, Some(a + ", " + o), None) == a
  {
    PyStr.SplitNoSep(" " + o, ',');
    assert a + ", " + o == a + [','] + (" " + o);
    PyStr.SplitPrefix(a, ',', " " + o);
    assert o != " " + o by { assert |o| != |" " + o|; }
  }
}
