# Observability auto-configuration, modelled in Dafny

This project models the core of a small Spring Boot observability starter.
The starter registers three meter filters with a Micrometer registry and installs a
request-logging servlet filter. All of it is configured through the `observability.*`
properties.

What the model covers:

- **URI exclusion.** `MetricsConfiguration.matchesPattern` turns an exclude pattern such
  as `/actuator/**` into a Java regular expression. It does so with three literal
  `String.replace` calls, and then matches the whole URI against the anchored result.
  The model does exactly that:
  - `JavaString.Replace` is Java's left-to-right, non-overlapping replace.
  - `Glob.RegexOf` is the replace chain.
  - `Glob.ParseBody` parses the fragment of Java regex syntax the chain emits.
  - `Glob.Matches` is the backtracking, whole-string semantics of `String.matches`.

  A parser/renderer round trip ties the regex text to a token list. So the decision is
  proved equal to a token matcher, and the patterns' meaning is derived from that:
  - `prefix*` matches the prefix followed by no further `/`.
  - `prefix**` matches the prefix, one more character other than a line terminator, and
    then no further `/`.
  - An unescaped `.` matches any one character other than a line terminator (`\n`, `\r`,
    U+0085, U+2028, U+2029).
- **Meter filters.**
  - The exclude filter reads the `uri` tag (`Meter.Id.getTag`, where the first tag with
    the key wins). It denies the meter when any pattern matches.
  - The name filter denies every meter whose name starts with `tomcat.`.
  - The registry's chain lets the first reply other than "neutral" decide.
- **Percentiles.** When enabled, the percentile filter's `configure` merges the
  configured percentile list into the distribution configuration of
  `http.server.requests`. It leaves every other meter alone.
- **Bean conditions and defaults.** The `@ConditionalOnProperty` gates are modelled,
  and so are the field initialisers of `ObservabilityProperties`.
- **Request logging.**
  - `shouldNotFilter` is a raw prefix test on the URI.
  - The log line's format covers the method and URI, the optional query string, status
    and duration, and the optional header list with its trailing separator.
  - The order of events in `doFilterInternal`'s `try`/`finally` is modelled: the chain
    call, one log line, one copy-back. The handler's exception is rethrown unchanged.

Two defects of `matchesPattern` are recorded under "## Findings". For each of them a
corrected matcher (`IntendedGlob`) is defined and proved to behave as intended. A
second exclude filter is built on the corrected matcher (`MeterFilters.IntendedUriDenied`).
For patterns without `.`, it is proved to deny at least as much as the original. With a
`.` it can deny less: `/faviconXico` is dropped only by the original.

The corrected matcher gives patterns the usual glob meaning:
- `**` matches any remainder, `/` included;
- `*` matches a run of characters without `/`;
- `.` is a literal dot.

The rest of the model keeps the code's behaviour.

All beans live behind the class-level `observability.enabled` gate
(`Properties.AutoConfigurationActive`). `Distribution.EffectiveConfig` takes that gate
into account together with the percentile filter's own gate. `MeterFilters.MeterAccepted`
and `LoggingFilter.DoFilter` model an active configuration, in which the filter beans
exist.

Modules, one per file:

| file | module | role |
|---|---|---|
| `wrappers.dfy` | `Wrappers` | `Option`, standing in for Java's `null` |
| `java_string.dfy` | `JavaString` | `String.replace` |
| `decimal.dfy` | `Decimal` | `%d` formatting of integers, and its inverse |
| `glob.dfy` | `Glob` | the replace chain, the regex fragment, `matchesPattern` |
| `glob_facts.dfy` | `GlobFacts` | the meaning of literal, `*`, `**` and `.` patterns |
| `intended_glob.dfy` | `IntendedGlob` | the corrected matcher |
| `glob_examples.dfy` | `GlobExamples` | the matcher on concrete patterns and URIs |
| `properties.dfy` | `Properties` | the bound properties, defaults and bean conditions |
| `meter_filters.dfy` | `MeterFilters` | the exclude and name deny filters and the filter chain |
| `distribution.dfy` | `Distribution` | the percentile filter's `configure` |
| `logging_filter.dfy` | `LoggingFilter` | `shouldNotFilter`, `logRequest`, `doFilterInternal` |
| `scenarios.dfy` | `Scenarios` | the default configuration applied to concrete requests |

## Model

| member | source | states |
|---|---|---|
| JavaString.ReplaceNoOccurrence | src/main/java/dev/observability/autoconfigure/MetricsConfiguration.java:54-57 | A replace step leaves a string without an occurrence of its target unchanged. So `/` is escaped only where it appears, and `*` is rewritten only where it appears. |
| JavaString.ReplaceCharConcat | src/main/java/dev/observability/autoconfigure/MetricsConfiguration.java:56-57 | The single-character replacements (`*`, `/`) act character by character: the replace of a concatenation is the concatenation of the replaces. |
| Glob.RegexOf | src/main/java/dev/observability/autoconfigure/MetricsConfiguration.java:54-57 | The three replace calls in their order; what they produce is stated by `Glob.RegexOfIsRender`. |
| Glob.Tokenize | src/main/java/dev/observability/autoconfigure/MetricsConfiguration.java:54-57 | How the replace chain reads a pattern. No token is ever the corrected matcher's `**`, and no literal is `*` or `.`, so both wildcards always act as wildcards. That the tokens render to exactly the chain's output is stated by `Glob.RegexOfIsRender`. |
| Glob.RegexOfIsRender | src/main/java/dev/observability/autoconfigure/MetricsConfiguration.java:54-57 | For every pattern, the replace chain yields the token-wise rendering: `**` becomes `.[^\/]*`, `*` becomes `[^\/]*`, `/` becomes `\/`, and every other character is kept. |
| Glob.ParseRender | src/main/java/dev/observability/autoconfigure/MetricsConfiguration.java:58 | Round trip: parsing the rendered regex gives back exactly the token list it was rendered from. |
| Glob.TokenizePlainIsRenderable | src/main/java/dev/observability/autoconfigure/MetricsConfiguration.java:54-57 | A pattern without regex metacharacters other than `*` and `.` compiles to a regex inside the parsed fragment. |
| Glob.MatchesPattern | src/main/java/dev/observability/autoconfigure/MetricsConfiguration.java:53-59 | The anchored `uri.matches("^" + regex + "$")` on the replaced pattern succeeds exactly when the URI matches the pattern's token list. |
| Glob.RenderConcat | src/main/java/dev/observability/autoconfigure/MetricsConfiguration.java:54-57 | The regex of a concatenation of tokens is the concatenation of their regexes. |
| GlobFacts.MatchesConcat | src/main/java/dev/observability/autoconfigure/MetricsConfiguration.java:58 | A whole-string match of two token lists in sequence exists exactly when the URI splits into a part matching the first and a rest matching the second. |
| GlobFacts.LitsPrefix | src/main/java/dev/observability/autoconfigure/MetricsConfiguration.java:58 | Literal characters followed by more tokens match exactly the URIs that start with those characters and whose rest matches the remaining tokens. |
| GlobFacts.StarAlone | src/main/java/dev/observability/autoconfigure/MetricsConfiguration.java:56 | `[^\/]*` on its own matches exactly the strings without `/`. |
| GlobFacts.StarStopsAtSlash | src/main/java/dev/observability/autoconfigure/MetricsConfiguration.java:56 | At a `/`, `[^\/]*` can only match the empty string. |
| GlobFacts.AnyCharPrefix | src/main/java/dev/observability/autoconfigure/MetricsConfiguration.java:55-58 | The unescaped `.` consumes exactly one character, and that character is not a line terminator. |
| GlobFacts.TokenizeAppend | src/main/java/dev/observability/autoconfigure/MetricsConfiguration.java:54-57 | Text without `*` compiles on its own: the tokens of `w + q` are the tokens of `w` followed by those of `q`. |
| GlobFacts.LiteralPatternExact | src/main/java/dev/observability/autoconfigure/MetricsConfiguration.java:53-59 | A pattern without `*` or `.` (such as `/error`) matches exactly the URI equal to it. |
| GlobFacts.PrefixStar | src/main/java/dev/observability/autoconfigure/MetricsConfiguration.java:53-59 | `prefix*` matches exactly the URIs that start with the prefix and contain no `/` after it. |
| GlobFacts.PrefixDoubleStar | src/main/java/dev/observability/autoconfigure/MetricsConfiguration.java:53-59 | `prefix**` matches exactly the URIs that have the prefix, then one character that is not a line terminator, then no `/`. |
| GlobFacts.DotBetween | src/main/java/dev/observability/autoconfigure/MetricsConfiguration.java:53-59 | `before.after` matches exactly `before`, any one non-terminator character, then `after`. |
| GlobExamples.SingleStarCases | src/main/java/dev/observability/autoconfigure/MetricsConfiguration.java:56 | `/a/b*` matches `/a/b` and `/a/bz` but not `/a/b/z`. |
| GlobExamples.DoubleStarCases | src/main/java/dev/observability/autoconfigure/MetricsConfiguration.java:55-56 | `/actuator/**` matches `/actuator/health`. It matches neither `/actuator/` nor `/actuator/health/liveness`. |
| GlobExamples.ActuatorPattern | src/main/java/dev/observability/autoconfigure/MetricsConfiguration.java:53-59 | The default `/actuator/**` pattern matches exactly the URIs of the `**` shape after `/actuator/`. |
| GlobExamples.DoubleStarMiddleCase | src/main/java/dev/observability/autoconfigure/MetricsConfiguration.java:55-56 | A `**` in mid-pattern does not span segments: `/a/**/b*` rejects `/a/x/y/bz`. |
| GlobExamples.UnescapedDotCase | src/main/java/dev/observability/autoconfigure/MetricsConfiguration.java:54-58 | `/favicon.ico` matches itself, and it also matches `/faviconXico`. |
| GlobExamples.DoubleStarStopsAtSlash | src/main/java/dev/observability/autoconfigure/MetricsConfiguration.java:55-56 | As written, `/actuator/**` misses `/actuator/health/liveness`; the corrected matcher covers it. |
| GlobExamples.DeepActuatorMissed | src/main/java/dev/observability/autoconfigure/MetricsConfiguration.java:55-56 | As written, no URI with a `/` two or more characters after `/actuator/` is excluded by `/actuator/**`. |
| GlobExamples.DotMatchesAnyChar | src/main/java/dev/observability/autoconfigure/MetricsConfiguration.java:54-58 | As written, `/favicon.ico` matches `/faviconXico`; the corrected matcher rejects it. |
| GlobExamples.IntendedDoubleStarMiddleCase | src/main/java/dev/observability/autoconfigure/MetricsConfiguration.java:55-56 | With the corrected matcher, a mid-pattern `**` spans segments: `/a/**/b*` accepts `/a/x/y/bz`. |
| IntendedGlob.IntendedTokenizeAppend | src/main/java/dev/observability/autoconfigure/MetricsConfiguration.java:54-57 | In the corrected compilation, text without `*` is literal, `.` included. |
| IntendedGlob.IntendedLiteralExact | src/main/java/dev/observability/autoconfigure/MetricsConfiguration.java:54-58 | Corrected: a pattern without `*` matches only the identical URI, so `.` is a literal dot. |
| IntendedGlob.IntendedDoubleStarSubtree | src/main/java/dev/observability/autoconfigure/MetricsConfiguration.java:55 | Corrected: `prefix**` matches every URI that starts with the prefix, at any depth. |
| IntendedGlob.AsWrittenWithinIntended | src/main/java/dev/observability/autoconfigure/MetricsConfiguration.java:53-59 | For patterns without `.`, every URI the code's matcher accepts is also accepted by the corrected matcher. |
| MeterFilters.UriDenied | src/main/java/dev/observability/autoconfigure/MetricsConfiguration.java:42-50 | The exclude filter's predicate; its meaning is stated by `MeterFilters.UriDeniedMeaning` and `Scenarios.DefaultPatternsMatch`. |
| MeterFilters.NameDenied | src/main/java/dev/observability/autoconfigure/MetricsConfiguration.java:63 | `denyNameStartsWith("tomcat.")`; its cases are stated by `MeterFilters.NameFilterCases`. |
| MeterFilters.GetTag | src/main/java/dev/observability/autoconfigure/MetricsConfiguration.java:43-46 | `getTag` gives no value exactly when no tag has the key; any value it gives belongs to a tag with that key. |
| MeterFilters.AnyPatternMatches | src/main/java/dev/observability/autoconfigure/MetricsConfiguration.java:48-49 | The stream's `anyMatch` holds exactly when some pattern of the list matches the URI. |
| MeterFilters.UriDeniedMeaning | src/main/java/dev/observability/autoconfigure/MetricsConfiguration.java:39-51 | A meter without a `uri` tag is never denied; otherwise it is denied exactly when some pattern matches the tag's value. |
| MeterFilters.EmptyListNeverDenies | src/main/java/dev/observability/autoconfigure/MetricsConfiguration.java:48-49 | With no patterns, nothing is excluded. |
| MeterFilters.PatternOrderIrrelevant | src/main/java/dev/observability/autoconfigure/MetricsConfiguration.java:48-49 | Two pattern lists with the same members deny the same meters, whatever their order or duplicates. |
| MeterFilters.NameFilterCases | src/main/java/dev/observability/autoconfigure/MetricsConfiguration.java:62-64 | The name filter depends on the name only. It denies exactly the names starting with `tomcat.`: `tomcat.sessions.active.current` is denied, `tomcat` is not. |
| MeterFilters.DenyChainAcceptsIffNoDeny | src/main/java/dev/observability/autoconfigure/MetricsConfiguration.java:42-63 | A chain of deny-or-neutral filters accepts a meter exactly when no filter denies it. |
| MeterFilters.MeterAcceptedIff | src/main/java/dev/observability/autoconfigure/MetricsConfiguration.java:38-64 | A meter is recorded exactly when neither the exclude filter nor the name filter denies it. |
| MeterFilters.FilterOrderIrrelevant | src/main/java/dev/observability/autoconfigure/MetricsConfiguration.java:38-64 | The verdict is the same whichever of the two deny filters comes first. |
| MeterFilters.IntendedMeterAcceptedIff | src/main/java/dev/observability/autoconfigure/MetricsConfiguration.java:38-64 | With the corrected matcher too, a meter is recorded exactly when neither filter denies it. |
| MeterFilters.IntendedDeniesAtLeast | src/main/java/dev/observability/autoconfigure/MetricsConfiguration.java:39-51 | For patterns without `.`, the corrected exclude filter denies every meter the code's filter denies, and records no meter the code's filter drops. |
| Distribution.Configure | src/main/java/dev/observability/autoconfigure/MetricsConfiguration.java:76-85 | Meters other than `http.server.requests` keep their configuration. The HTTP timer gets exactly the configured percentiles, in order, and keeps every other field. |
| Distribution.EffectiveConfig | src/main/java/dev/observability/autoconfigure/MetricsConfiguration.java:23-87 | The filter exists only when both `observability.enabled` (class level) and `observability.metrics.percentiles.enabled` allow it. When either gate is closed, no configuration changes. When both are open, the HTTP timer gets exactly the configured percentiles and keeps every other field, and other meters are untouched. |
| Distribution.ConfigureIdempotent | src/main/java/dev/observability/autoconfigure/MetricsConfiguration.java:76-85 | Applying the percentile override a second time changes nothing more. |
| Distribution.MergeUnsetIdentity | src/main/java/dev/observability/autoconfigure/MetricsConfiguration.java:79-82 | Merging with a configuration that sets nothing is the identity, on either side. |
| Distribution.DefaultPercentileOverride | src/main/java/dev/observability/properties/ObservabilityProperties.java:37-38 | With the defaults, the HTTP timer would get 0.5, 0.95 and 0.99. But the filter is absent unless its key is set, and `observability.enabled=false` removes it whatever its own key says. |
| Properties.Default | src/main/java/dev/observability/properties/ObservabilityProperties.java:15-46 | The object the binder starts from; its field values are stated by `Properties.DefaultValues`. |
| Properties.AutoConfigurationActive | src/main/java/dev/observability/autoconfigure/MetricsConfiguration.java:23 | The class-level gate (also LoggingFilter.java:24); stated for every value by `Properties.GateOnValue`. |
| Properties.PercentilesFilterRegistered | src/main/java/dev/observability/autoconfigure/MetricsConfiguration.java:67 | The percentile filter's gate, without `matchIfMissing`; stated for every value by `Properties.GateOnValue`. |
| Properties.GateOnValue | src/main/java/dev/observability/autoconfigure/MetricsConfiguration.java:23-67 | For every value of the key, both gates are open exactly when the value is `true` in some mix of upper- and lower-case letters. A missing `observability.enabled` opens the class gate, and a missing percentile key keeps the filter off. |
| Properties.DefaultValues | src/main/java/dev/observability/properties/ObservabilityProperties.java:15-46 | The defaults: the five exclude patterns in order; percentiles off with 0.5, 0.95 and 0.99; headers off; query string on; payload off with limit 1000; no common tags; custom metrics on; the `enabled` field false. |
| Properties.EnabledGateIsTheKey | src/main/java/dev/observability/autoconfigure/MetricsConfiguration.java:23 | The configuration is active when `observability.enabled` is missing (though the bound field defaults to false), and `TRUE`/`true` open it while `false` and `yes` close it. The percentile filter needs its key present. The general rule is `Properties.GateOnValue`. |
| LoggingFilter.ShouldNotFilter | src/main/java/dev/observability/filter/LoggingFilter.java:79-82 | `path.startsWith("/actuator")`; its cases are stated by `LoggingFilter.ShouldNotFilterCases`. |
| LoggingFilter.LogLine | src/main/java/dev/observability/filter/LoggingFilter.java:47-76 | The line `logRequest` builds. Its layout is stated by `LoggingFilter.LogLineStart`, `LoggingFilter.LogLineStatus` and `LoggingFilter.LogLineEnding`. |
| LoggingFilter.HeaderList | src/main/java/dev/observability/filter/LoggingFilter.java:68-72 | One `name=value, ` per header; stated by `LoggingFilter.HeaderListAppend` and `LoggingFilter.HeaderListEnding`. |
| LoggingFilter.ShouldNotFilterCases | src/main/java/dev/observability/filter/LoggingFilter.java:79-82 | A request is skipped exactly when its URI begins with the nine characters `/actuator`; `/actuatorX` is skipped too, and `/api/actuator` is not. |
| LoggingFilter.LogLineStart | src/main/java/dev/observability/filter/LoggingFilter.java:56-61 | The line starts with the method, one space and the URI. The next character is `?` exactly when query strings are logged and the request has one, and the query string follows it verbatim. |
| LoggingFilter.LogLineStatus | src/main/java/dev/observability/filter/LoggingFilter.java:63 | After the URI and optional query comes ` - Status: <status>, Duration: <duration>ms` in decimal. |
| LoggingFilter.LogLineEnding | src/main/java/dev/observability/filter/LoggingFilter.java:63-73 | The line is exactly head, optional query, status text and header section, with nothing in between. It ends in `ms` exactly when headers are not logged; otherwise it ends with `\nHeaders: ` and the header list. |
| LoggingFilter.StatusTextInjective | src/main/java/dev/observability/filter/LoggingFilter.java:63 | The status segment identifies its numbers: equal texts come from equal status and duration. |
| LoggingFilter.HeaderListEnding | src/main/java/dev/observability/filter/LoggingFilter.java:68-72 | A non-empty header list keeps its trailing `, `; an empty enumeration yields nothing. |
| LoggingFilter.HeaderListAppend | src/main/java/dev/observability/filter/LoggingFilter.java:68-72 | Headers appear in enumeration order, each as `name=value, `: the list of a concatenation is the concatenation of the lists. |
| LoggingFilter.DoFilter | src/main/java/dev/observability/filter/LoggingFilter.java:30-45 | The handler's outcome, normal or exceptional, is passed on unchanged, and the rest of the chain runs exactly once. A skipped request goes straight down the chain and nothing else happens. Any other request gives exactly three events: the wrapped chain call, one log line with the measured duration, and the copy-back as the final step. |
| LoggingFilter.LogLinesAppend | src/main/java/dev/observability/filter/LoggingFilter.java:38-44 | The log lines of consecutive traces are those of each trace, in order. |
| LoggingFilter.OneLinePerFilteredExchange | src/main/java/dev/observability/filter/LoggingFilter.java:30-45 | Over any sequence of requests, there is exactly one log line and one copy-back per request that is not skipped, and exactly one chain call per request. |
| LoggingFilter.LoggedDurationNonNegative | src/main/java/dev/observability/filter/LoggingFilter.java:36-42 | The logged duration is the difference of the two clock readings; when the clock does not go back it prints as plain digits. |
| Decimal.FormatInt | src/main/java/dev/observability/filter/LoggingFilter.java:63 | `%d`: a leading `-` exactly for negative values, then digits only. Its inverse is stated by `Decimal.FormatRoundTrip`. |
| Decimal.FormatRoundTrip | src/main/java/dev/observability/filter/LoggingFilter.java:63 | `%d` formatting is invertible: parsing the printed integer gives it back. |
| Decimal.FormatInjective | src/main/java/dev/observability/filter/LoggingFilter.java:63 | Different integers print differently. |
| Scenarios.DefaultPatternsMatch | src/main/java/dev/observability/properties/ObservabilityProperties.java:24-30 | The default list excludes exactly the `/actuator/**` shape, `/error`, the `/favicon.ico` shape, the `/swagger-ui/**` shape and the `/v3/api-docs/**` shape. |
| Scenarios.RequestMeterVerdict | src/main/java/dev/observability/autoconfigure/MetricsConfiguration.java:38-64 | A `http.server.requests` meter is recorded exactly when its URI has none of the default shapes. |
| Scenarios.DefaultExclusions | src/main/java/dev/observability/autoconfigure/MetricsConfiguration.java:39-51 | With the defaults, `/error`, `/favicon.ico` and `/actuator/health` are dropped. `/orders/123` is recorded, and so is `/actuator/health/liveness`. |
| Scenarios.IntendedExcludesNested | src/main/java/dev/observability/autoconfigure/MetricsConfiguration.java:39-59 | With the corrected matcher, the default list drops `/actuator/health/liveness`. |
| Scenarios.GetOrdersLogged | src/main/java/dev/observability/filter/LoggingFilter.java:30-76 | With the default logging settings, `GET /orders/42` answered 200 after 15 ms gives exactly the events chain, `GET /orders/42 - Status: 200, Duration: 15ms`, copy-back. |
| Scenarios.ActuatorNotLogged | src/main/java/dev/observability/filter/LoggingFilter.java:79-82 | `/actuator/health` is passed through unwrapped and never logged, whatever the settings and the handler's outcome. |

## Left out

- `CustomMetrics` (counter, timer and gauge registration) is not modelled. It only forwards to the Micrometer registry.
- The common-tags customizer (`MetricsConfiguration.java:28-36`) is not modelled. It only forwards the map to `registry.config().commonTags`.
- Spring wiring is not modelled: bean creation, property binding, and `OncePerRequestFilter`'s once-per-request and async dispatch bookkeeping. Only the property gates are kept, as predicates on the raw key value.
- The caching request and response wrappers are not modelled; the response body copy is one trace event.
- The clock and the log sink are not modelled as effects. The two `currentTimeMillis` readings and the response status are inputs of an exchange, and `log.info` is a trace event.
- Glob.MatchesPattern: requires the pattern to hold no regex metacharacter other than `*` and `.`. For other patterns (`+`, `?`, `[`, `(`, …), Java's regex compiler gives them meanings, or throws, which are not modelled. All default patterns lie inside the fragment.
- Glob.Matches: `.` excludes the five Java line terminators. Code points above U+FFFF count as one character here, while a Java `String` holds them as two UTF-16 units.
- Distribution.Merge: modelled as "a field set in the override wins, otherwise the parent's". This is how `DistributionStatisticConfig.merge` behaves; its source is not part of this model.
- Distribution.Configure: percentile values are opaque reals. No floating-point conversion of the `Double` list to `double[]` is modelled, and the values are not range-checked. The starter does not check them. Micrometer's `DistributionStatisticConfig.Builder.build()` (`MetricsConfiguration.java:81`) may reject percentiles outside [0, 1]; that library-side check is also outside the model.
- Decimal.FormatInt: assumes a default format locale with ASCII digits. `String.format` uses the default format locale, and a locale with other native digits (such as `th-TH-u-nu-thai`) would print `%d` in those digits.
- LoggingFilter.DoFilter: status and duration are unbounded integers. The `long` duration and `int` status never wrap for real clocks and HTTP codes. An exception thrown by `logRequest` or `copyBodyToResponse` themselves, inside the `finally`, is not modelled.
- LoggingFilter.LogLine: a header is the pair of its name and `getHeader(name)`, so a header sent twice shows its first value each time, as in the code. Header-name case folding by the container is not modelled.
- `includePayload` and `maxPayloadLength` are bound and given defaults but never read by the filter, so they have no behaviour here.
- The regex is compiled again on every call in the code. That is a cost, not a behaviour, and is not modelled.

## Findings

| source | as written | input that shows it | evidently intended | confidence | as-written member | corrected member |
|---|---|---|---|---|---|---|
| src/main/java/dev/observability/autoconfigure/MetricsConfiguration.java:54-57 | `replace("**", ".*")` runs before `replace("*", "[^/]*")`, which rewrites the `*` of `.*`. So `**` compiles to `.[^\/]*`: one character, then no `/`. | `/actuator/health/liveness` against `/actuator/**` is not matched, so nested actuator endpoints are recorded. `/actuator/` is not matched either. | `**` matches any remainder, `/` included | high (not executed) | GlobExamples.DoubleStarStopsAtSlash | IntendedGlob.IntendedDoubleStarSubtree |
| src/main/java/dev/observability/autoconfigure/MetricsConfiguration.java:54-58 | `.` is not escaped, so it stays a regex wildcard | `/faviconXico` against `/favicon.ico` is matched | `.` in a pattern is a literal dot | high (not executed) | GlobExamples.DotMatchesAnyChar | IntendedGlob.IntendedLiteralExact |

The corrected matcher is `IntendedGlob.IntendedMatches`. `MeterFilters.IntendedUriDenied` builds the exclude filter on it, and `Scenarios.IntendedExcludesNested` shows the default list then dropping `/actuator/health/liveness`. `MeterFilters.IntendedDeniesAtLeast` proves that the correction only ever excludes more, for patterns without `.`.
