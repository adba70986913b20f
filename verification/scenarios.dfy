/** End-to-end consequences for the default configuration: which request
    meters the default exclude list drops, and what the logging filter does
    with a plain request and with an actuator request. */
module Scenarios {
  import opened Wrappers
  import opened Glob
  import opened GlobFacts
  import opened IntendedGlob
  import opened GlobExamples
  import opened Properties
  import opened MeterFilters
  import opened LoggingFilter
  import opened Decimal

  /** The characters the default patterns are written with, apart from
      the wildcards. */
  predicate PathChar(c: char) {
    ('a' <= c <= 'z') || ('0' <= c <= '9') || c == '/' || c == '-'
  }

  lemma PathCharsPlain(p: string)
    requires forall i | 0 <= i < |p| :: PathChar(p[i]) || p[i] == '*' || p[i] == '.'
    ensures PlainPattern(p)
  {
    forall i | 0 <= i < |p|
      ensures p[i] == '*' || p[i] == '.' || !RegexMeta(p[i])
    {
    }
  }

  /** A path prefix written with path characters only. */
  lemma PathPrefix(w: string)
    requires forall i | 0 <= i < |w| :: PathChar(w[i])
    ensures PlainPattern(w) && '*' !in w && '.' !in w
  {
    PathCharsPlain(w);
  }

  /** `anyMatch` over a five-element list, pattern by pattern. */
  lemma AnyOfFive(ps: seq<string>, uri: string)
    requires |ps| == 5 && AllPlain(ps)
    ensures AnyPatternMatches(ps, uri) <==>
      MatchesPattern(uri, ps[0]) || MatchesPattern(uri, ps[1]) || MatchesPattern(uri, ps[2])
      || MatchesPattern(uri, ps[3]) || MatchesPattern(uri, ps[4])
  {
    if AnyPatternMatches(ps, uri) {
      var i :| 0 <= i < |ps| && MatchesPattern(uri, ps[i]);
      assert i == 0 || i == 1 || i == 2 || i == 3 || i == 4;
    }
  }

  lemma ErrorPattern(uri: string)
    ensures PlainPattern("/error")
    ensures MatchesPattern(uri, "/error") <==> uri == "/error"
  {
    PathPrefix("/error");
    LiteralPatternExact("/error", uri);
  }

  lemma FaviconPattern(uri: string)
    ensures PlainPattern("/favicon.ico")
    ensures MatchesPattern(uri, "/favicon.ico") <==> DotShape("/favicon", "ico", uri)
  {
    PathPrefix("/favicon");
    PathPrefix("ico");
    DotBetween("/favicon", "ico", uri);
    assert "/favicon" + "." + "ico" == "/favicon.ico";
  }

  lemma SwaggerPattern(uri: string)
    ensures PlainPattern("/swagger-ui/**")
    ensures MatchesPattern(uri, "/swagger-ui/**") <==> DoubleStarShape("/swagger-ui/", uri)
  {
    PathPrefix("/swagger-ui/");
    PrefixDoubleStar("/swagger-ui/", uri);
    assert "/swagger-ui/" + "**" == "/swagger-ui/**";
  }

  lemma ApiDocsPattern(uri: string)
    ensures PlainPattern("/v3/api-docs/**")
    ensures MatchesPattern(uri, "/v3/api-docs/**") <==> DoubleStarShape("/v3/api-docs/", uri)
  {
    PathPrefix("/v3/api-docs/");
    PrefixDoubleStar("/v3/api-docs/", uri);
    assert "/v3/api-docs/" + "**" == "/v3/api-docs/**";
  }

  /** A URI from the plain path part of each default pattern: a URI the
      default list excludes, pattern by pattern. */
  predicate DefaultShapes(uri: string) {
    || DoubleStarShape("/actuator/", uri)
    || uri == "/error"
    || DotShape("/favicon", "ico", uri)
    || DoubleStarShape("/swagger-ui/", uri)
    || DoubleStarShape("/v3/api-docs/", uri)
  }

  lemma AllPlainFive(ps: seq<string>)
    requires |ps| == 5
    requires PlainPattern(ps[0]) && PlainPattern(ps[1]) && PlainPattern(ps[2])
    requires PlainPattern(ps[3]) && PlainPattern(ps[4])
    ensures AllPlain(ps)
  {
    forall i | 0 <= i < |ps|
      ensures PlainPattern(ps[i])
    {
      assert i == 0 || i == 1 || i == 2 || i == 3 || i == 4;
    }
  }

  /** The default exclude patterns lie in the modelled fragment. */
  lemma DefaultPatternsPlain()
    ensures AllPlain(DefaultExcludePatterns)
  {
    PathCharsPlain("/actuator/**");
    PathCharsPlain("/error");
    PathCharsPlain("/favicon.ico");
    PathCharsPlain("/swagger-ui/**");
    PathCharsPlain("/v3/api-docs/**");
    AllPlainFive(DefaultExcludePatterns);
  }

  /** What the default exclude list matches, for every URI. */
  lemma DefaultPatternsMatch(uri: string)
    ensures AllPlain(DefaultExcludePatterns)
    ensures AnyPatternMatches(DefaultExcludePatterns, uri) <==> DefaultShapes(uri)
  {
    DefaultPatternsPlain();
    var ps := DefaultExcludePatterns;
    assert ps[0] == "/actuator/**" && ps[1] == "/error" && ps[2] == "/favicon.ico";
    assert ps[3] == "/swagger-ui/**" && ps[4] == "/v3/api-docs/**";
    AnyOfFive(ps, uri);
    ActuatorPattern(uri);
    ErrorPattern(uri);
    FaviconPattern(uri);
    SwaggerPattern(uri);
    ApiDocsPattern(uri);
  }

  /** The request meter Spring records for an exchange, tagged with the
      matched URI template. */
  function RequestMeter(uri: string): MeterId {
    MeterId("http.server.requests", [Tag("method", "GET"), Tag("uri", uri), Tag("status", "200")])
  }

  lemma RequestMeterTags(uri: string)
    ensures GetTag(RequestMeter(uri).tags, "uri") == Some(uri)
    ensures !NameDenied(RequestMeter(uri))
  {
    var tags := RequestMeter(uri).tags;
    assert tags[0].key != "uri" && tags[1].key == "uri";
    assert tags[1..][0] == tags[1];
    assert "http.server.requests"[0] != 't';
  }

  /** A meter whose name the name filter lets through is recorded exactly
      when no pattern matches its `uri` tag. */
  lemma VerdictByUri(ps: seq<string>, id: MeterId, uri: string)
    requires AllPlain(ps)
    requires GetTag(id.tags, "uri") == Some(uri) && !NameDenied(id)
    ensures MeterAccepted(ps, id) <==> !AnyPatternMatches(ps, uri)
  {
    MeterAcceptedIff(ps, id);
  }

  /** With the default configuration, a request meter is dropped exactly
      when its URI has one of the default shapes. */
  lemma RequestMeterVerdict(uri: string)
    ensures AllPlain(DefaultExcludePatterns)
    ensures MeterAccepted(DefaultExcludePatterns, RequestMeter(uri)) <==> !DefaultShapes(uri)
  {
    DefaultPatternsMatch(uri);
    RequestMeterTags(uri);
    VerdictByUri(DefaultExcludePatterns, RequestMeter(uri), uri);
  }

  lemma ErrorListed()
    ensures DefaultShapes("/error")
  {
  }

  lemma FaviconListed()
    ensures DefaultShapes("/favicon.ico")
  {
    FaviconShapes();
  }

  lemma HealthListed()
    ensures DefaultShapes("/actuator/health")
  {
    HealthShape();
  }

  lemma OrdersNotListed()
    ensures !DefaultShapes("/orders/123")
  {
    var uri := "/orders/123";
    Differs("/actuator/", uri, 1);
    Differs("/swagger-ui/", uri, 1);
    Differs("/v3/api-docs/", uri, 1);
    Differs("/favicon", uri, 1);
  }

  lemma LivenessNotListed()
    ensures !DefaultShapes("/actuator/health/liveness")
  {
    var uri := "/actuator/health/liveness";
    SlashLater("/actuator/", uri, 16);
    Differs("/swagger-ui/", uri, 1);
    Differs("/v3/api-docs/", uri, 1);
    Differs("/favicon", uri, 1);
  }

  /** The default exclude list at work: error pages, the favicon and a
      top-level actuator endpoint are not recorded, an application URI is;
      and so is a nested actuator URI, because `**` stops at the next `/`. */
  lemma DefaultExclusions()
    ensures AllPlain(DefaultExcludePatterns)
    ensures !MeterAccepted(DefaultExcludePatterns, RequestMeter("/error"))
    ensures !MeterAccepted(DefaultExcludePatterns, RequestMeter("/favicon.ico"))
    ensures !MeterAccepted(DefaultExcludePatterns, RequestMeter("/actuator/health"))
    ensures MeterAccepted(DefaultExcludePatterns, RequestMeter("/orders/123"))
    ensures MeterAccepted(DefaultExcludePatterns, RequestMeter("/actuator/health/liveness"))
  {
    RequestMeterVerdict("/error");
    ErrorListed();
    RequestMeterVerdict("/favicon.ico");
    FaviconListed();
    RequestMeterVerdict("/actuator/health");
    HealthListed();
    RequestMeterVerdict("/orders/123");
    OrdersNotListed();
    RequestMeterVerdict("/actuator/health/liveness");
    LivenessNotListed();
  }

  /** With the corrected matcher the nested actuator URI is not recorded:
      the default list then drops every
      actuator endpoint, at any depth. */
  lemma IntendedExcludesNested()
    ensures !IntendedMeterAccepted(DefaultExcludePatterns, RequestMeter("/actuator/health/liveness"))
  {
    var uri := "/actuator/health/liveness";
    var id := RequestMeter(uri);
    IntendedDoubleStarSubtree("/actuator/", uri);
    assert "/actuator/" + "**" == DefaultExcludePatterns[0];
    assert "/actuator/" <= uri;
    assert GetTag(id.tags, "uri") == Some(uri);
    assert IntendedUriDenied(DefaultExcludePatterns, id);
    IntendedMeterAcceptedIff(DefaultExcludePatterns, id);
  }

  lemma Numerals()
    ensures FormatInt(200) == "200" && FormatInt(15) == "15"
  {
    assert NatToString(2) == "2";
    assert NatToString(20) == NatToString(2) + "0";
    assert NatToString(200) == NatToString(20) + "0";
    assert NatToString(1) == "1";
    assert NatToString(15) == NatToString(1) + "5";
  }

  /** With headers off and no query string to show, the line is the method,
      the URI and the status/duration text, nothing more. */
  lemma PlainLine(logging: Logging, request: Request, status: int, duration: int)
    requires !logging.includeHeaders
    requires !logging.includeQueryString || request.query.None?
    ensures LogLine(logging, request, status, duration)
      == request.httpMethod + " " + request.uri + " - Status: " + FormatInt(status) + ", Duration: " + FormatInt(duration) + "ms"
  {
  }

  /** A filtered exchange produces exactly three events. */
  lemma FilteredRun(logging: Logging, ex: Exchange)
    requires !ShouldNotFilter(ex.request.uri)
    ensures DoFilter(logging, ex)
      == Run([Invoke(true), Log(LogLine(logging, ex.request, ex.status, ex.endMillis - ex.startMillis)), CopyBodyToResponse], ex.handler)
  {
  }

  lemma OrdersText()
    ensures "GET" + " " + "/orders/42" + " - Status: " + "200" + ", Duration: " + "15" + "ms"
      == "GET /orders/42 - Status: 200, Duration: 15ms"
  {
    var a := "GET" + " " + "/orders/42";
    assert a == "GET /orders/42";
    var b := a + " - Status: " + "200";
    assert b == "GET /orders/42 - Status: 200";
    var c := b + ", Duration: " + "15";
    assert c == "GET /orders/42 - Status: 200, Duration: 15";
  }

  /** A typical exchange: `GET /orders/42` answered with 200
      after 15 ms gives one line, between the wrapped chain call and the
      copy-back. */
  lemma GetOrdersLogged()
    ensures DoFilter(DefaultLogging(), Exchange(Request("GET", "/orders/42", None, []), Returned, 200, 0, 15))
      == Run([Invoke(true), Log("GET /orders/42 - Status: 200, Duration: 15ms"), CopyBodyToResponse], Returned)
  {
    var request := Request("GET", "/orders/42", None, []);
    var ex := Exchange(request, Returned, 200, 0, 15);
    Numerals();
    PlainLine(DefaultLogging(), request, 200, 15);
    OrdersText();
    assert !ShouldNotFilter(request.uri) by {
      assert request.uri[1] != "/actuator"[1];
    }
    FilteredRun(DefaultLogging(), ex);
  }

  /** An actuator request passes straight through: no wrapping, no line. */
  lemma ActuatorNotLogged(logging: Logging, handler: Outcome)
    ensures var run := DoFilter(logging, Exchange(Request("GET", "/actuator/health", None, []), handler, 200, 0, 3));
      run.trace == [Invoke(false)] && LogLines(run.trace) == [] && run.outcome == handler
  {
    assert ShouldNotFilter("/actuator/health");
    assert LogLines([Invoke(false)]) == LogLines([]);
  }
}
