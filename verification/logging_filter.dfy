/** The request-logging filter (`LoggingFilter`): which exchanges it skips,
    the single line it logs for the others, and the order of events of
    `doFilterInternal`'s try/finally, with the handler's outcome, the
    response status and the two clock readings as inputs. */
module LoggingFilter {
  import opened Wrappers
  import opened Decimal
  import opened Properties

  /** A request header as the servlet enumerates it: the name and the value
      `getHeader(name)` returns for it. */
  datatype Header = Header(name: string, value: string)

  datatype Request = Request(httpMethod: string, uri: string, query: Option<string>, headers: seq<Header>)

  /** The exceptions `doFilterInternal` may let through. */
  datatype Failure = ServletException(message: string) | IOException(message: string) | RuntimeFailure(message: string)

  /** How a call ended: normally, or by throwing. */
  datatype Outcome = Returned | Threw(failure: Failure)

  /** What the filter does that can be observed, in order: invoking the rest
      of the chain (on the caching wrappers or on the raw request), emitting
      a log line, and copying the cached response body to the real response. */
  datatype Event = Invoke(wrapped: bool) | Log(line: string) | CopyBodyToResponse

  /** One exchange as the filter sees it: the request, how the rest of the
      chain ended, the response status when the log line is built, and the
      two `currentTimeMillis` readings around the chain call. */
  datatype Exchange = Exchange(request: Request, handler: Outcome, status: int, startMillis: int, endMillis: int)

  /** The filter's observable result: its events and how it ends. */
  datatype Run = Run(trace: seq<Event>, outcome: Outcome)

  /** `shouldNotFilter`: a plain string-prefix test on the request URI,
      so `/actuatorX` is skipped too. */
  predicate ShouldNotFilter(uri: string) {
    "/actuator" <= uri
  }

  /** The skip test compares characters, not path segments: every URI that
      begins with the nine characters `/actuator` is skipped, including
      `/actuatorX`, and nothing else is. */
  lemma ShouldNotFilterCases(uri: string)
    ensures ShouldNotFilter(uri) <==> |uri| >= 9 && uri[..9] == "/actuator"
    ensures ShouldNotFilter("/actuator") && ShouldNotFilter("/actuatorX") && ShouldNotFilter("/actuator/health")
    ensures !ShouldNotFilter("/orders") && !ShouldNotFilter("/api/actuator") && !ShouldNotFilter("/actuato")
  {
    assert "/api/actuator"[2] != "/actuator"[2];
    assert "/orders"[1] != "/actuator"[1];
  }

  function QuerySuffix(logging: Logging, query: Option<string>): string {
    if logging.includeQueryString && query.Some? then "?" + query.value else ""
  }

  function StatusText(status: int, duration: int): string {
    " - Status: " + FormatInt(status) + ", Duration: " + FormatInt(duration) + "ms"
  }

  /** `name=value, ` for every header in enumeration order, the trailing
      separator included. */
  function HeaderList(headers: seq<Header>): string
    decreases |headers|
  {
    if |headers| == 0 then ""
    else headers[0].name + "=" + headers[0].value + ", " + HeaderList(headers[1..])
  }

  function HeaderSection(logging: Logging, headers: seq<Header>): string {
    if logging.includeHeaders then "\nHeaders: " + HeaderList(headers) else ""
  }

  /** The line `logRequest` builds: method and URI, the query string when
      it is logged and present, status and duration, then the headers when
      they are logged. */
  function LogLine(logging: Logging, request: Request, status: int, duration: int): string {
    request.httpMethod + " " + request.uri + QuerySuffix(logging, request.query)
      + StatusText(status, duration) + HeaderSection(logging, request.headers)
  }

  /** The line begins with the method and the URI separated by one space;
      right after the URI comes `?` exactly when the query string is logged
      and the request has one, and then the query string itself. */
  lemma LogLineStart(logging: Logging, request: Request, status: int, duration: int)
    ensures var line := LogLine(logging, request, status, duration);
      var n := |request.httpMethod| + 1 + |request.uri|;
      && |line| > n
      && line[..n] == request.httpMethod + " " + request.uri
      && (line[n] == '?' <==> logging.includeQueryString && request.query.Some?)
      && (logging.includeQueryString && request.query.Some? ==>
            n + 1 + |request.query.value| <= |line| && line[n..n + 1 + |request.query.value|] == "?" + request.query.value)
  {
    var head := request.httpMethod + " " + request.uri;
    var q := QuerySuffix(logging, request.query);
    var st := StatusText(status, duration);
    var hs := HeaderSection(logging, request.headers);
    StatusTextShape(status, duration);
    var query := if request.query.Some? then request.query.value else "";
    var line := LogLine(logging, request, status, duration);
    assert line == head + q + st + hs;
    LineStart(head, q, st, hs, logging.includeQueryString && request.query.Some?, query);
  }

  /** The head of a line, then `?` and the query exactly when there is a
      query suffix, then the status text and the header section. */
  lemma LineStart(head: string, q: string, st: string, hs: string, hasQuery: bool, query: string)
    requires |st| >= 2 && st[0] != '?'
    requires hasQuery ==> q == "?" + query
    requires !hasQuery ==> q == ""
    ensures var line := head + q + st + hs;
      && |line| > |head|
      && line[..|head|] == head
      && (line[|head|] == '?' <==> hasQuery)
      && (hasQuery ==> |head| + 1 + |query| <= |line| && line[|head|..|head| + 1 + |query|] == "?" + query)
  {
    Layout(head, q, st, hs);
    assert (q + st)[0] == if |q| > 0 then q[0] else st[0];
  }

  /** After the URI and the optional query string come the status and the
      duration, both in decimal. */
  lemma LogLineStatus(logging: Logging, request: Request, status: int, duration: int)
    ensures var line := LogLine(logging, request, status, duration);
      var k := |request.httpMethod| + 1 + |request.uri| + |QuerySuffix(logging, request.query)|;
      var st := StatusText(status, duration);
      k + |st| <= |line| && line[k..k + |st|] == st
  {
    var head := request.httpMethod + " " + request.uri;
    var st := StatusText(status, duration);
    StatusTextShape(status, duration);
    Layout(head, QuerySuffix(logging, request.query), st, HeaderSection(logging, request.headers));
  }

  /** The line ends right after `ms` exactly when headers are not logged,
      and otherwise with the header section. */
  lemma LogLineEnding(logging: Logging, request: Request, status: int, duration: int)
    ensures var line := LogLine(logging, request, status, duration);
      // nothing lies between the status text and the header section
      && |line| == |request.httpMethod| + 1 + |request.uri| + |QuerySuffix(logging, request.query)|
                   + |StatusText(status, duration)| + |HeaderSection(logging, request.headers)|
      && |line| >= 2
      && (!logging.includeHeaders <==> line[|line| - 2..] == "ms")
      && (logging.includeHeaders ==> line[|line| - |HeaderSection(logging, request.headers)|..] == "\nHeaders: " + HeaderList(request.headers))
  {
    var head := request.httpMethod + " " + request.uri;
    var q := QuerySuffix(logging, request.query);
    var st := StatusText(status, duration);
    var hs := HeaderSection(logging, request.headers);
    StatusTextShape(status, duration);
    HeaderSectionShape(logging, request.headers);
    var line := LogLine(logging, request, status, duration);
    assert line == head + q + st + hs;
    LineEnd(head, q, st, hs, logging.includeHeaders, HeaderList(request.headers));
  }

  /** The line is the four parts with nothing in between; it ends with the
      `ms` of the status text exactly when the header section is empty. */
  lemma LineEnd(head: string, q: string, st: string, hs: string, hasHeaders: bool, list: string)
    requires |st| >= 2 && st[|st| - 2..] == "ms"
    requires hasHeaders ==> hs == "\nHeaders: " + list && |hs| >= 2 && hs[|hs| - 2..] != "ms"
    requires !hasHeaders ==> hs == ""
    ensures var line := head + q + st + hs;
      && |line| == |head| + |q| + |st| + |hs|
      && |line| >= 2
      && (!hasHeaders <==> line[|line| - 2..] == "ms")
      && (hasHeaders ==> line[|line| - |hs|..] == "\nHeaders: " + list)
  {
    Layout(head, q, st, hs);
  }

  /** The status text gives back the status and the duration it was built
      from: both numbers are printed in full and neither holds the `,` that
      follows the status, so different pairs never print alike. */
  lemma StatusTextInjective(s1: int, d1: int, s2: int, d2: int)
    requires StatusText(s1, d1) == StatusText(s2, d2)
    ensures s1 == s2 && d1 == d2
  {
    NumeralHasNoComma(s1);
    NumeralHasNoComma(s2);
    Unframe(" - Status: ", FormatInt(s1), ", Duration: ", FormatInt(d1), "ms", FormatInt(s2), FormatInt(d2));
    FormatInjective(s1, s2);
    FormatInjective(d1, d2);
  }

  lemma NumeralHasNoComma(n: int)
    ensures ',' !in FormatInt(n)
  {
  }

  /** Two texts of the same frame `p a m b e` agree on their holes when the
      first hole cannot hold the first character of `m`. */
  lemma Unframe(p: string, a: string, m: string, b: string, e: string, a': string, b': string)
    requires |m| > 0 && m[0] !in a && m[0] !in a'
    requires p + a + m + b + e == p + a' + m + b' + e
    ensures a == a' && b == b'
  {
    var t := p + a + m + b + e;
    var t' := p + a' + m + b' + e;
    assert t[|p|..] == a + ([m[0]] + (m[1..] + b + e));
    assert t'[|p|..] == a' + ([m[0]] + (m[1..] + b' + e));
    SplitAtSeparator(a, m[1..] + b + e, a', m[1..] + b' + e, m[0]);
    var r := m[1..] + b + e;
    var r' := m[1..] + b' + e;
    assert b == r[|m| - 1..|r| - |e|] && b' == r'[|m| - 1..|r'| - |e|];
  }

  /** Text split at the first occurrence of a separator that the first
      part does not hold. */
  lemma SplitAtSeparator(x: string, y: string, x': string, y': string, c: char)
    requires c !in x && c !in x'
    requires x + ([c] + y) == x' + ([c] + y')
    ensures x == x' && y == y'
  {
    var t := x + ([c] + y);
    SeparatorIndex(x, y, c);
    SeparatorIndex(x', y', c);
    assert |x| == |x'|;
    assert x == t[..|x|] && x' == t[..|x'|];
    assert y == t[|x| + 1..] && y' == t[|x'| + 1..];
  }

  /** The separator sits right after the first part and nowhere in it. */
  lemma SeparatorIndex(x: string, y: string, c: char)
    requires c !in x
    ensures (x + ([c] + y))[|x|] == c
    ensures forall j | 0 <= j < |x| :: (x + ([c] + y))[j] != c
  {
    forall j | 0 <= j < |x|
      ensures (x + ([c] + y))[j] != c
    {
      assert (x + ([c] + y))[j] == x[j];
      assert x[j] in x;
    }
  }

  /** Where each part of a four-part line ends up. */
  lemma Layout(head: string, q: string, st: string, hs: string)
    requires |st| >= 2
    ensures var line := head + q + st + hs;
      && |line| == |head| + |q| + |st| + |hs|
      && line[..|head|] == head
      && line[|head|] == (q + st)[0]
      && line[|head|..|head| + |q|] == q
      && line[|head| + |q|..|head| + |q| + |st|] == st
      && line[|line| - |hs|..] == hs
      && (|hs| == 0 ==> line[|line| - 2..] == st[|st| - 2..])
      && (|hs| >= 2 ==> line[|line| - 2..] == hs[|hs| - 2..])
  {
    var line := head + q + st + hs;
    assert line == head + (q + st + hs);
    assert line == (head + q) + st + hs;
    assert line == (head + q + st) + hs;
  }

  lemma StatusTextShape(status: int, duration: int)
    ensures var st := StatusText(status, duration);
      |st| >= 2 && st[0] == ' ' && st[|st| - 2..] == "ms"
  {
    var st := StatusText(status, duration);
    var front := " - Status: " + FormatInt(status) + ", Duration: " + FormatInt(duration);
    assert st == front + "ms";
    assert st[0] == ' ';
  }

  lemma HeaderSectionShape(logging: Logging, headers: seq<Header>)
    ensures var hs := HeaderSection(logging, headers);
      (hs == "" <==> !logging.includeHeaders)
      && (logging.includeHeaders ==> |hs| >= 2 && hs[|hs| - 2..] != "ms")
  {
    var hs := HeaderSection(logging, headers);
    if logging.includeHeaders {
      var list := HeaderList(headers);
      HeaderListEnding(headers);
      assert hs == "\nHeaders: " + list;
      if |headers| == 0 {
        assert hs == "\nHeaders: ";
        assert hs[|hs| - 2..] == ": ";
      } else {
        assert hs[|hs| - 2..] == list[|list| - 2..];
      }
    }
  }

  /** A header list ends with its separator (or is empty). */
  lemma {:induction false} HeaderListEnding(headers: seq<Header>)
    ensures |headers| == 0 <==> HeaderList(headers) == ""
    ensures |headers| > 0 ==> |HeaderList(headers)| >= 3 && HeaderList(headers)[|HeaderList(headers)| - 2..] == ", "
    decreases |headers|
  {
    if |headers| > 0 {
      HeaderListEnding(headers[1..]);
    }
  }

  /** Headers are listed in enumeration order: the list of a concatenation
      is the concatenation of the lists. */
  lemma {:induction false} HeaderListAppend(a: seq<Header>, b: seq<Header>)
    ensures HeaderList(a + b) == HeaderList(a) + HeaderList(b)
    decreases |a|
  {
    if |a| == 0 {
      assert a + b == b;
    } else {
      assert (a + b)[0] == a[0];
      assert (a + b)[1..] == a[1..] + b;
      HeaderListAppend(a[1..], b);
    }
  }

  /** `OncePerRequestFilter` followed by `doFilterInternal`: a skipped
      exchange goes straight down the chain; any other is wrapped, timed,
      and in the `finally` block logged once and then copied back, whether
      the chain returned or threw. The chain's exception is rethrown as is. */
  function DoFilter(logging: Logging, ex: Exchange): (run: Run)
    ensures run.outcome == ex.handler
    // the rest of the chain runs exactly once, skipped or not
    ensures Invokes(run.trace) == 1
    ensures ShouldNotFilter(ex.request.uri) ==> run.trace == [Invoke(false)]
    ensures !ShouldNotFilter(ex.request.uri) ==>
      && |run.trace| == 3 && run.trace[0] == Invoke(true)
      && LogLines(run.trace) == [LogLine(logging, ex.request, ex.status, ex.endMillis - ex.startMillis)]
      && Copies(run.trace) == 1
      && run.trace[|run.trace| - 1] == CopyBodyToResponse
  {
    if ShouldNotFilter(ex.request.uri) then
      Run([Invoke(false)], ex.handler)
    else
      var duration := ex.endMillis - ex.startMillis;
      var line := LogLine(logging, ex.request, ex.status, duration);
      FinallyTrace(line);
      // try { chain.doFilter(wrapped...) } finally { logRequest(...); copyBodyToResponse(); }
      Run([Invoke(true), Log(line), CopyBodyToResponse], ex.handler)
  }

  /** The `finally` block appends one log line and then one copy-back. */
  lemma FinallyTrace(line: string)
    ensures LogLines([Invoke(true), Log(line), CopyBodyToResponse]) == [line]
    ensures Copies([Invoke(true), Log(line), CopyBodyToResponse]) == 1
    ensures Invokes([Invoke(true), Log(line), CopyBodyToResponse]) == 1
  {
    var t := [Invoke(true), Log(line), CopyBodyToResponse];
    var t1 := [Log(line), CopyBodyToResponse];
    var t2 := [CopyBodyToResponse];
    assert t[1..] == t1 && t1[1..] == t2 && t2[1..] == [];
    assert LogLines(t2) == [] && Copies(t2) == 1 && Invokes(t2) == 0;
    assert LogLines(t1) == [line] + LogLines(t2) && Copies(t1) == Copies(t2) && Invokes(t1) == Invokes(t2);
    assert LogLines(t) == LogLines(t1) && Copies(t) == Copies(t1) && Invokes(t) == 1 + Invokes(t1);
  }

  /** The log lines of a trace, in order. */
  function LogLines(trace: seq<Event>): seq<string>
    decreases |trace|
  {
    if |trace| == 0 then []
    else (if trace[0].Log? then [trace[0].line] else []) + LogLines(trace[1..])
  }

  /** How many times the cached body is copied back. */
  function Copies(trace: seq<Event>): nat
    decreases |trace|
  {
    if |trace| == 0 then 0
    else (if trace[0] == CopyBodyToResponse then 1 else 0) + Copies(trace[1..])
  }

  /** How many times the rest of the chain is invoked. */
  function Invokes(trace: seq<Event>): nat
    decreases |trace|
  {
    if |trace| == 0 then 0
    else (if trace[0].Invoke? then 1 else 0) + Invokes(trace[1..])
  }

  lemma {:induction false} LogLinesAppend(a: seq<Event>, b: seq<Event>)
    ensures LogLines(a + b) == LogLines(a) + LogLines(b)
    decreases |a|
  {
    if |a| == 0 {
      assert a + b == b;
    } else {
      assert (a + b)[0] == a[0];
      assert (a + b)[1..] == a[1..] + b;
      LogLinesAppend(a[1..], b);
    }
  }

  lemma {:induction false} CopiesAppend(a: seq<Event>, b: seq<Event>)
    ensures Copies(a + b) == Copies(a) + Copies(b)
    decreases |a|
  {
    if |a| == 0 {
      assert a + b == b;
    } else {
      assert (a + b)[0] == a[0];
      assert (a + b)[1..] == a[1..] + b;
      CopiesAppend(a[1..], b);
    }
  }

  lemma {:induction false} InvokesAppend(a: seq<Event>, b: seq<Event>)
    ensures Invokes(a + b) == Invokes(a) + Invokes(b)
    decreases |a|
  {
    if |a| == 0 {
      assert a + b == b;
    } else {
      assert (a + b)[0] == a[0];
      assert (a + b)[1..] == a[1..] + b;
      InvokesAppend(a[1..], b);
    }
  }

  /** The events of a sequence of exchanges handled one after another. */
  function RunAll(logging: Logging, exs: seq<Exchange>): seq<Event>
    decreases |exs|
  {
    if |exs| == 0 then [] else DoFilter(logging, exs[0]).trace + RunAll(logging, exs[1..])
  }

  /** How many of the exchanges the filter does not skip. */
  function Filtered(exs: seq<Exchange>): nat
    decreases |exs|
  {
    if |exs| == 0 then 0
    else (if ShouldNotFilter(exs[0].request.uri) then 0 else 1) + Filtered(exs[1..])
  }

  /** Over any sequence of exchanges, exactly one log line per exchange the
      filter does not skip, and one copy-back for each of them; the rest of
      the chain runs once per exchange, skipped or not. */
  lemma {:induction false} OneLinePerFilteredExchange(logging: Logging, exs: seq<Exchange>)
    ensures |LogLines(RunAll(logging, exs))| == Filtered(exs)
    ensures Copies(RunAll(logging, exs)) == Filtered(exs)
    ensures Invokes(RunAll(logging, exs)) == |exs|
    decreases |exs|
  {
    if |exs| > 0 {
      var run := DoFilter(logging, exs[0]);
      LogLinesAppend(run.trace, RunAll(logging, exs[1..]));
      CopiesAppend(run.trace, RunAll(logging, exs[1..]));
      InvokesAppend(run.trace, RunAll(logging, exs[1..]));
      OneLinePerFilteredExchange(logging, exs[1..]);
      if ShouldNotFilter(exs[0].request.uri) {
        assert LogLines(run.trace) == [] && Copies(run.trace) == 0 && Invokes(run.trace) == 1;
      }
    }
  }

  /** The logged duration is the difference of the two clock readings; when
      the clock does not go backwards it is printed as plain digits, without
      a sign. */
  lemma LoggedDurationNonNegative(logging: Logging, ex: Exchange)
    requires !ShouldNotFilter(ex.request.uri)
    requires ex.startMillis <= ex.endMillis
    ensures var d := ex.endMillis - ex.startMillis;
      && LogLines(DoFilter(logging, ex).trace) == [LogLine(logging, ex.request, ex.status, d)]
      && d >= 0 && AllDigits(FormatInt(d))
  {
  }
}
