/** The configuration root bound from the `observability.*` keys
    (`ObservabilityProperties` and its nested `Metrics`, `Percentiles` and
    `Logging` records) with the defaults their field initialisers give, and
    the property conditions that decide which beans exist. */
module Properties {
  import opened Wrappers

  /** `observability.metrics.percentiles.*`. Percentile values are kept as
      opaque reals; the code never checks that they lie in (0, 1). */
  datatype Percentiles = Percentiles(enabled: bool, values: seq<real>)

  /** `observability.metrics.*`. */
  datatype Metrics = Metrics(
    commonTags: map<string, string>,
    customMetricsEnabled: bool,
    excludePatterns: seq<string>,
    percentiles: Percentiles)

  /** `observability.logging.*`. `includePayload` and `maxPayloadLength` are
      bound but never read by the filter. */
  datatype Logging = Logging(
    includeHeaders: bool,
    includeQueryString: bool,
    includePayload: bool,
    maxPayloadLength: int)

  datatype ObservabilityProperties = ObservabilityProperties(
    enabled: bool,
    metrics: Metrics,
    logging: Logging)

  const DefaultExcludePatterns: seq<string> :=
    ["/actuator/**", "/error", "/favicon.ico", "/swagger-ui/**", "/v3/api-docs/**"]

  const DefaultPercentileValues: seq<real> := [0.5, 0.95, 0.99]

  function DefaultPercentiles(): Percentiles {
    Percentiles(false, DefaultPercentileValues)
  }

  function DefaultMetrics(): Metrics {
    Metrics(map[], true, DefaultExcludePatterns, DefaultPercentiles())
  }

  function DefaultLogging(): Logging {
    Logging(false, true, false, 1000)
  }

  /** The object the binder starts from when no key is set. `enabled` has
      no initialiser, so it is Java's default `false`. */
  function Default(): ObservabilityProperties {
    ObservabilityProperties(false, DefaultMetrics(), DefaultLogging())
  }

  function ToLowerAscii(c: char): char {
    if 'A' <= c <= 'Z' then (c as int + 32) as char else c
  }

  /** `String.equalsIgnoreCase` against a lower-case ASCII word such as
      `true` (no character outside ASCII folds onto its letters). */
  predicate EqualsIgnoreCase(value: string, word: string) {
    |value| == |word| && forall i | 0 <= i < |value| :: ToLowerAscii(value[i]) == word[i]
  }

  /** `@ConditionalOnProperty(..., havingValue = "true", matchIfMissing = m)`
      on the raw value of the key: a missing key gives `m`, a present one
      must equal `true` ignoring case. */
  predicate ConditionOnTrue(raw: Option<string>, matchIfMissing: bool) {
    match raw
    case None => matchIfMissing
    case Some(v) => EqualsIgnoreCase(v, "true")
  }

  /** Both `MetricsConfiguration` and `LoggingFilter` exist unless
      `observability.enabled` is set to something other than `true`. */
  predicate AutoConfigurationActive(enabledKey: Option<string>)
  {
    ConditionOnTrue(enabledKey, true)
  }

  /** The percentile filter bean exists only when
      `observability.metrics.percentiles.enabled` is set to `true`. */
  predicate PercentilesFilterRegistered(percentilesEnabledKey: Option<string>)
  {
    ConditionOnTrue(percentilesEnabledKey, false)
  }

  /** The defaults the field initialisers give. */
  lemma DefaultValues()
    ensures Default().metrics.excludePatterns ==
      ["/actuator/**", "/error", "/favicon.ico", "/swagger-ui/**", "/v3/api-docs/**"]
    ensures !Default().logging.includeHeaders && Default().logging.includeQueryString
    ensures !Default().logging.includePayload && Default().logging.maxPayloadLength == 1000
    ensures !Default().metrics.percentiles.enabled
    ensures Default().metrics.percentiles.values == [0.5, 0.95, 0.99]
    ensures Default().metrics.commonTags == map[] && Default().metrics.customMetricsEnabled
    ensures !Default().enabled
  {
  }

  /** `true` in some mix of upper- and lower-case letters. */
  predicate SpellsTrue(v: string) {
    |v| == 4 && v[0] in "tT" && v[1] in "rR" && v[2] in "uU" && v[3] in "eE"
  }

  /** Folding one character onto a lower-case letter: only that letter and
      its upper-case form fold onto it. */
  lemma FoldsOnto(c: char, lower: char)
    requires 'a' <= lower <= 'z'
    ensures ToLowerAscii(c) == lower <==> c == lower || c == (lower as int - 32) as char
  {
  }

  /** For every value of a key: the gate is open exactly when the value
      spells `true` ignoring case; a missing key gives each gate's default. */
  lemma GateOnValue(v: string)
    ensures AutoConfigurationActive(Some(v)) <==> SpellsTrue(v)
    ensures PercentilesFilterRegistered(Some(v)) <==> SpellsTrue(v)
    ensures AutoConfigurationActive(None) && !PercentilesFilterRegistered(None)
  {
    if |v| == 4 {
      FoldsOnto(v[0], 't');
      FoldsOnto(v[1], 'r');
      FoldsOnto(v[2], 'u');
      FoldsOnto(v[3], 'e');
      assert EqualsIgnoreCase(v, "true") <==>
        ToLowerAscii(v[0]) == 't' && ToLowerAscii(v[1]) == 'r' && ToLowerAscii(v[2]) == 'u' && ToLowerAscii(v[3]) == 'e';
    }
  }

  /** The bound `enabled` field is `false` by default, yet the
      auto-configuration is active when the key is missing: the gate is the
      property key, not the field. A present key must spell `true`, in any case. */
  lemma EnabledGateIsTheKey()
    ensures !Default().enabled && AutoConfigurationActive(None)
    ensures AutoConfigurationActive(Some("TRUE")) && AutoConfigurationActive(Some("true"))
    ensures !AutoConfigurationActive(Some("false")) && !AutoConfigurationActive(Some("yes"))
    ensures !PercentilesFilterRegistered(None) && PercentilesFilterRegistered(Some("True"))
  {
    assert !EqualsIgnoreCase("false", "true");
    assert ToLowerAscii('y') != 't';
    assert ToLowerAscii('T') == 't' && ToLowerAscii('R') == 'r' && ToLowerAscii('U') == 'u' && ToLowerAscii('E') == 'e';
  }
}
