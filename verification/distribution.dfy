/** The percentile override of `MetricsConfiguration.percentilesFilter`:
    a `configure` callback that merges the configured percentiles into the
    distribution statistics of the HTTP server timer only. */
module Distribution {
  import opened Wrappers
  import Properties

  /** The fields of a distribution statistics configuration; `None` is a
      field the configuration leaves unset (`null`). */
  datatype DistributionConfig = DistributionConfig(
    percentilesHistogram: Option<bool>,
    percentiles: Option<seq<real>>,
    percentilePrecision: Option<int>,
    serviceLevelObjectives: Option<seq<real>>,
    minimumExpectedValue: Option<real>,
    maximumExpectedValue: Option<real>,
    expiry: Option<int>,
    bufferLength: Option<int>)

  const HttpServerRequests := "http.server.requests"

  /** A configuration with no field set. */
  function Unset(): DistributionConfig {
    DistributionConfig(None, None, None, None, None, None, None, None)
  }

  /** `DistributionStatisticConfig.builder().percentiles(values).build()`. */
  function PercentilesOnly(values: seq<real>): DistributionConfig {
    Unset().(percentiles := Some(values))
  }

  function Pick<T>(own: Option<T>, parent: Option<T>): Option<T> {
    if own.Some? then own else parent
  }

  /** `override.merge(parent)`: every field set in the override wins, every
      field it leaves unset comes from the parent. */
  function Merge(over: DistributionConfig, parent: DistributionConfig): DistributionConfig {
    DistributionConfig(
      Pick(over.percentilesHistogram, parent.percentilesHistogram),
      Pick(over.percentiles, parent.percentiles),
      Pick(over.percentilePrecision, parent.percentilePrecision),
      Pick(over.serviceLevelObjectives, parent.serviceLevelObjectives),
      Pick(over.minimumExpectedValue, parent.minimumExpectedValue),
      Pick(over.maximumExpectedValue, parent.maximumExpectedValue),
      Pick(over.expiry, parent.expiry),
      Pick(over.bufferLength, parent.bufferLength))
  }

  /** The filter's `configure(id, config)`. */
  function Configure(values: seq<real>, name: string, base: DistributionConfig): (r: DistributionConfig)
    // every other meter passes through untouched
    ensures name != HttpServerRequests ==> r == base
    // the HTTP timer gets exactly the configured percentiles, in order,
    // and keeps every other field of the base configuration
    ensures name == HttpServerRequests ==> r.percentiles == Some(values) && r.(percentiles := base.percentiles) == base
  {
    if name == HttpServerRequests then Merge(PercentilesOnly(values), base) else base
  }

  /** The distribution configuration the registry ends up with. The filter
      bean is declared inside `MetricsConfiguration`, so it exists only when
      both the class-level `observability.enabled` gate and its own
      `observability.metrics.percentiles.enabled` gate hold. */
  function EffectiveConfig(enabledKey: Option<string>, percentilesEnabledKey: Option<string>,
                           values: seq<real>, name: string, base: DistributionConfig): (r: DistributionConfig)
    ensures !Properties.AutoConfigurationActive(enabledKey) ==> r == base
    ensures !Properties.PercentilesFilterRegistered(percentilesEnabledKey) ==> r == base
    ensures name != HttpServerRequests ==> r == base
    ensures (Properties.AutoConfigurationActive(enabledKey) && Properties.PercentilesFilterRegistered(percentilesEnabledKey)
             && name == HttpServerRequests) ==>
      r.percentiles == Some(values) && r.(percentiles := base.percentiles) == base
  {
    if Properties.AutoConfigurationActive(enabledKey) && Properties.PercentilesFilterRegistered(percentilesEnabledKey) then
      Configure(values, name, base)
    else base
  }

  /** Applying the override twice is the same as applying it once. */
  lemma ConfigureIdempotent(values: seq<real>, name: string, base: DistributionConfig)
    ensures Configure(values, name, Configure(values, name, base)) == Configure(values, name, base)
  {
  }

  /** Merging with an unset configuration changes nothing, on either side. */
  lemma MergeUnsetIdentity(c: DistributionConfig)
    ensures Merge(Unset(), c) == c && Merge(c, Unset()) == c
  {
  }

  /** With the default percentile list: the HTTP timer gets exactly
      0.5, 0.95 and 0.99; by default the filter is not registered at all,
      and switching the starter off removes it whatever its own key says. */
  lemma DefaultPercentileOverride(enabledKey: Option<string>, percentilesEnabledKey: Option<string>, name: string, base: DistributionConfig)
    ensures Configure(Properties.Default().metrics.percentiles.values, HttpServerRequests, base).percentiles == Some([0.5, 0.95, 0.99])
    ensures EffectiveConfig(enabledKey, None, Properties.Default().metrics.percentiles.values, name, base) == base
    ensures EffectiveConfig(Some("false"), percentilesEnabledKey, Properties.Default().metrics.percentiles.values, name, base) == base
  {
    assert !Properties.AutoConfigurationActive(Some("false")) by {
      assert Properties.ToLowerAscii('f') != 't';
    }
  }
}
