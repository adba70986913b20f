/** The deny filters `MetricsConfiguration` registers with the meter
    registry, and the registry's evaluation of a filter chain. */
module MeterFilters {
  import opened Wrappers
  import opened Glob
  import opened IntendedGlob
  import Properties

  datatype Tag = Tag(key: string, value: string)

  /** A meter's identity: its name and its tags, in the registry's order. */
  datatype MeterId = MeterId(name: string, tags: seq<Tag>)

  /** The reply of one filter: `MeterFilter.deny(p)` answers `Deny` when `p`
      holds and `Neutral` otherwise. */
  datatype Reply = Deny | Neutral | Accept

  /** `Meter.Id.getTag(key)`: the value of the first tag with that key, or
      `null` (here `None`). */
  function GetTag(tags: seq<Tag>, key: string): (r: Option<string>)
    ensures r.None? <==> forall i | 0 <= i < |tags| :: tags[i].key != key
    ensures r.Some? ==> exists i | 0 <= i < |tags| :: tags[i] == Tag(key, r.value)
    decreases |tags|
  {
    if |tags| == 0 then None
    else if tags[0].key == key then Some(tags[0].value)
    else
      var r := GetTag(tags[1..], key);
      assert forall i | 1 <= i < |tags| :: tags[i] == tags[1..][i - 1];
      r
  }

  predicate AllPlain(patterns: seq<string>) {
    forall i | 0 <= i < |patterns| :: PlainPattern(patterns[i])
  }

  /** `patterns.stream().anyMatch(p -> matchesPattern(uri, p))`. */
  predicate AnyPatternMatches(patterns: seq<string>, uri: string)
    requires AllPlain(patterns)
    ensures AnyPatternMatches(patterns, uri) <==> exists i | 0 <= i < |patterns| :: MatchesPattern(uri, patterns[i])
    decreases |patterns|
  {
    if |patterns| == 0 then false
    else
      assert forall i | 1 <= i < |patterns| :: patterns[i] == patterns[1..][i - 1];
      MatchesPattern(uri, patterns[0]) || AnyPatternMatches(patterns[1..], uri)
  }

  /** The predicate of `excludeUrlPatternFilter`: a meter without a `uri`
      tag is never denied; one with a `uri` tag is denied iff some pattern
      matches it. */
  predicate UriDenied(patterns: seq<string>, id: MeterId)
    requires AllPlain(patterns)
  {
    match GetTag(id.tags, "uri")
    case None => false
    case Some(uri) => AnyPatternMatches(patterns, uri)
  }

  /** The predicate of `MeterFilter.denyNameStartsWith("tomcat.")`. */
  predicate NameDenied(id: MeterId) {
    "tomcat." <= id.name
  }

  function DenyWhen(p: bool): Reply {
    if p then Deny else Neutral
  }

  /** The registry's verdict for a chain of replies: the first reply other
      than `Neutral` decides, and a chain of neutral replies accepts. */
  predicate ChainAccepts(replies: seq<Reply>)
    decreases |replies|
  {
    if |replies| == 0 then true
    else if replies[0] == Neutral then ChainAccepts(replies[1..])
    else replies[0] == Accept
  }

  /** A chain of deny-or-neutral filters accepts iff none of them denies,
      so the order in which the filter beans are registered does not matter. */
  lemma {:induction false} DenyChainAcceptsIffNoDeny(replies: seq<Reply>)
    requires forall i | 0 <= i < |replies| :: replies[i] != Accept
    ensures ChainAccepts(replies) <==> Deny !in replies
    decreases |replies|
  {
    if |replies| > 0 {
      assert replies == [replies[0]] + replies[1..];
      DenyChainAcceptsIffNoDeny(replies[1..]);
    }
  }

  /** Whether a meter is recorded, given the exclude patterns and the two
      deny filters of the configuration (in their declaration order). */
  predicate MeterAccepted(patterns: seq<string>, id: MeterId)
    requires AllPlain(patterns)
  {
    ChainAccepts([DenyWhen(UriDenied(patterns, id)), DenyWhen(NameDenied(id))])
  }

  /** The exclude filter, stated in terms of the meter's `uri` tag. */
  lemma UriDeniedMeaning(patterns: seq<string>, id: MeterId)
    requires AllPlain(patterns)
    ensures GetTag(id.tags, "uri").None? ==> !UriDenied(patterns, id)
    ensures UriDenied(patterns, id) <==>
      (exists t | t in id.tags :: t.key == "uri") &&
      exists i | 0 <= i < |patterns| :: MatchesPattern(GetTag(id.tags, "uri").value, patterns[i])
  {
    if GetTag(id.tags, "uri").Some? {
      var i :| 0 <= i < |id.tags| && id.tags[i] == Tag("uri", GetTag(id.tags, "uri").value);
      assert id.tags[i] in id.tags;
    }
  }

  /** An empty exclude list denies nothing. */
  lemma EmptyListNeverDenies(id: MeterId)
    ensures !UriDenied([], id)
  {
  }

  /** Reordering or duplicating the patterns does not change the decision:
      only the set of patterns matters. */
  lemma PatternOrderIrrelevant(ps: seq<string>, qs: seq<string>, id: MeterId)
    requires AllPlain(ps) && AllPlain(qs)
    requires forall p :: p in ps <==> p in qs
    ensures UriDenied(ps, id) <==> UriDenied(qs, id)
  {
    match GetTag(id.tags, "uri") {
      case None =>
      case Some(uri) =>
        if AnyPatternMatches(ps, uri) {
          var i :| 0 <= i < |ps| && MatchesPattern(uri, ps[i]);
          assert ps[i] in qs;
          var j :| 0 <= j < |qs| && qs[j] == ps[i];
        }
        if AnyPatternMatches(qs, uri) {
          var j :| 0 <= j < |qs| && MatchesPattern(uri, qs[j]);
          assert qs[j] in ps;
          var i :| 0 <= i < |ps| && ps[i] == qs[j];
        }
    }
  }

  /** The name filter looks only at the name: it denies exactly the names
      starting with `tomcat.`, whatever the tags; `tomcat` alone passes. */
  lemma NameFilterCases(name: string, tags: seq<Tag>, tags': seq<Tag>)
    ensures NameDenied(MeterId(name, tags)) <==> NameDenied(MeterId(name, tags'))
    ensures NameDenied(MeterId(name, tags)) <==> |name| >= 7 && name[..7] == "tomcat."
    ensures NameDenied(MeterId("tomcat.sessions.active.current", tags))
    ensures !NameDenied(MeterId("tomcat", tags))
  {
    assert "tomcat." <= "tomcat.sessions.active.current";
  }

  /** A meter is recorded iff neither deny filter applies. */
  lemma MeterAcceptedIff(patterns: seq<string>, id: MeterId)
    requires AllPlain(patterns)
    ensures MeterAccepted(patterns, id) <==> !UriDenied(patterns, id) && !NameDenied(id)
    ensures GetTag(id.tags, "uri").None? ==> (MeterAccepted(patterns, id) <==> !NameDenied(id))
  {
    var replies := [DenyWhen(UriDenied(patterns, id)), DenyWhen(NameDenied(id))];
    DenyChainAcceptsIffNoDeny(replies);
  }

  /** The same verdict whichever filter bean comes first. */
  lemma FilterOrderIrrelevant(patterns: seq<string>, id: MeterId)
    requires AllPlain(patterns)
    ensures MeterAccepted(patterns, id) <==>
      ChainAccepts([DenyWhen(NameDenied(id)), DenyWhen(UriDenied(patterns, id))])
  {
    MeterAcceptedIff(patterns, id);
    DenyChainAcceptsIffNoDeny([DenyWhen(NameDenied(id)), DenyWhen(UriDenied(patterns, id))]);
  }

  /** The exclude filter with the corrected matcher of `IntendedGlob` in
      place of `matchesPattern`. */
  predicate IntendedUriDenied(patterns: seq<string>, id: MeterId) {
    match GetTag(id.tags, "uri")
    case None => false
    case Some(uri) => exists i | 0 <= i < |patterns| :: IntendedMatches(uri, patterns[i])
  }

  /** Whether a meter is recorded when the exclude filter uses the
      corrected matcher. */
  predicate IntendedMeterAccepted(patterns: seq<string>, id: MeterId) {
    ChainAccepts([DenyWhen(IntendedUriDenied(patterns, id)), DenyWhen(NameDenied(id))])
  }

  /** With the corrected matcher too, a meter is recorded iff neither deny
      filter applies. */
  lemma IntendedMeterAcceptedIff(patterns: seq<string>, id: MeterId)
    ensures IntendedMeterAccepted(patterns, id) <==> !IntendedUriDenied(patterns, id) && !NameDenied(id)
  {
    DenyChainAcceptsIffNoDeny([DenyWhen(IntendedUriDenied(patterns, id)), DenyWhen(NameDenied(id))]);
  }

  /** With patterns free of `.`, the corrected filter denies every meter the
      as-written one denies. */
  lemma IntendedDeniesAtLeast(patterns: seq<string>, id: MeterId)
    requires AllPlain(patterns)
    requires forall i | 0 <= i < |patterns| :: '.' !in patterns[i]
    ensures UriDenied(patterns, id) ==> IntendedUriDenied(patterns, id)
    ensures IntendedMeterAccepted(patterns, id) ==> MeterAccepted(patterns, id)
  {
    if UriDenied(patterns, id) {
      var uri := GetTag(id.tags, "uri").value;
      var i :| 0 <= i < |patterns| && MatchesPattern(uri, patterns[i]);
      AsWrittenWithinIntended(patterns[i], uri);
    }
    MeterAcceptedIff(patterns, id);
    IntendedMeterAcceptedIff(patterns, id);
  }
}
