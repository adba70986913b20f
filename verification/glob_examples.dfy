/** The concrete pattern/URI pairs that show what the as-written matcher of
    `MetricsConfiguration.matchesPattern` does, next to the corrected
    matcher where the two disagree. */
module GlobExamples {
  import opened Glob
  import opened GlobFacts
  import opened IntendedGlob

  /** A single `*` matches zero or more non-slash characters and stops at `/`. */
  lemma SingleStarCases()
    ensures PlainPattern("/a/b*")
    ensures MatchesPattern("/a/b", "/a/b*")
    ensures MatchesPattern("/a/bz", "/a/b*")
    ensures !MatchesPattern("/a/b/z", "/a/b*")
  {
    assert PlainPattern("/a/b");
    assert "/a/b" + "*" == "/a/b*";
    assert StarShape("/a/b", "/a/b");
    assert StarShape("/a/b", "/a/bz") by {
      assert "/a/b" <= "/a/bz";
      assert "/a/bz"[4..] == "z";
    }
    assert !StarShape("/a/b", "/a/b/z") by {
      assert "/a/b/z"[4..][0] == '/';
    }
    PrefixStar("/a/b", "/a/b");
    PrefixStar("/a/b", "/a/bz");
    PrefixStar("/a/b", "/a/b/z");
  }

  // `/actuator/**` compiles to `^\/actuator\/.[^\/]*$`: it needs exactly one
  // character after the slash and admits no further `/`.
  lemma DoubleStarCases()
    ensures PlainPattern("/actuator/**")
    ensures MatchesPattern("/actuator/health", "/actuator/**")
    ensures !MatchesPattern("/actuator/", "/actuator/**")
    ensures !MatchesPattern("/actuator/health/liveness", "/actuator/**")
  {
    ActuatorPattern("/actuator/health");
    ActuatorPattern("/actuator/");
    ActuatorPattern("/actuator/health/liveness");
    HealthShapes();
  }

  lemma ActuatorPattern(uri: string)
    ensures PlainPattern("/actuator/**")
    ensures MatchesPattern(uri, "/actuator/**") <==> DoubleStarShape("/actuator/", uri)
  {
    var w := "/actuator/";
    assert PlainPattern(w);
    assert w + "**" == "/actuator/**";
    PrefixDoubleStar(w, uri);
  }

  lemma HealthShapes()
    ensures DoubleStarShape("/actuator/", "/actuator/health")
    ensures !DoubleStarShape("/actuator/", "/actuator/")
    ensures !DoubleStarShape("/actuator/", "/actuator/health/liveness")
  {
    HealthShape();
    SlashLater("/actuator/", "/actuator/health/liveness", 16);
  }

  lemma HealthShape()
    ensures DoubleStarShape("/actuator/", "/actuator/health")
  {
    var uri := "/actuator/health";
    assert "/actuator/" <= uri;
    assert uri[11..] == "ealth";
  }

  // `/a/**/b*` does not reach across two directory levels.
  lemma DoubleStarMiddleCase()
    ensures PlainPattern("/a/**/b*")
    ensures !MatchesPattern("/a/x/y/bz", "/a/**/b*")
  {
    assert PlainPattern("/a/**/b*");
    MiddleTokensReject();
  }

  lemma MiddleTokensReject()
    ensures !Matches(Tokenize("/a/**/b*"), "/a/x/y/bz")
  {
    MiddleTokens();
    var u := "/a/x/y/bz";
    assert "/a/" <= u && u[4] == '/' && !("/b" <= u[4..]) by {
      assert u[5] == 'y';
    }
    SlashAfterOneCharBlocks("/a/", "/b", [NonSlashStar], u);
  }

  /** After `w` and one character, a `/` in the URI ends the `[^\/]*` run;
      the literal text that follows must then match from that `/` on. */
  lemma SlashAfterOneCharBlocks(w: string, q: string, r: seq<Token>, u: string)
    requires |u| > |w| + 1 && w <= u && u[|w| + 1] == '/'
    requires !(q <= u[|w| + 1..])
    ensures !Matches(Lits(w) + ([AnyChar] + ([NonSlashStar] + (Lits(q) + r))), u)
  {
    LitsPrefix(w, [AnyChar] + ([NonSlashStar] + (Lits(q) + r)), u);
    var v := u[|w|..];
    AnyCharPrefix([NonSlashStar] + (Lits(q) + r), v);
    assert v[1..] == u[|w| + 1..];
    StarStopsAtSlash(Lits(q) + r, v[1..]);
    LitsPrefix(q, r, v[1..]);
  }

  lemma MiddleTokens()
    ensures Tokenize("/a/**/b*") == Lits("/a/") + ([AnyChar] + ([NonSlashStar] + (Lits("/b") + [NonSlashStar])))
  {
    assert "/a/**/b*" == "/a/" + ("**" + ("/b" + "*"));
    TokenizeAppend("/a/", "**" + ("/b" + "*"));
    TokenizeLiteralText("/a/");
    TailTokens();
  }

  lemma TailTokens()
    ensures Tokenize("**" + ("/b" + "*")) == [AnyChar] + ([NonSlashStar] + (Lits("/b") + [NonSlashStar]))
  {
    TokenizeDoubleStar("/b" + "*");
    TokenizeAppend("/b", "*");
    TokenizeLiteralText("/b");
    TokenizeStar();
  }

  /** The `.` of a pattern is a regex wildcard: `/favicon.ico` also matches
      `/faviconXico`. */
  lemma UnescapedDotCase()
    ensures PlainPattern("/favicon.ico")
    ensures MatchesPattern("/favicon.ico", "/favicon.ico")
    ensures MatchesPattern("/faviconXico", "/favicon.ico")
  {
    FaviconParts();
    FaviconShapes();
    DotBetween("/favicon", "ico", "/favicon.ico");
    DotBetween("/favicon", "ico", "/faviconXico");
  }

  lemma FaviconParts()
    ensures PlainPattern("/favicon") && PlainPattern("ico")
    ensures "/favicon" + "." + "ico" == "/favicon.ico"
  {
  }

  lemma FaviconShapes()
    ensures DotShape("/favicon", "ico", "/favicon.ico")
    ensures DotShape("/favicon", "ico", "/faviconXico")
  {
    assert "/favicon.ico"[9..] == "ico";
    assert "/favicon" <= "/faviconXico";
    assert "/faviconXico"[9..] == "ico";
  }

  // As written, `/actuator/**` misses the nested health endpoints that the
  // corrected matcher covers.
  lemma DoubleStarStopsAtSlash()
    ensures PlainPattern("/actuator/**")
    ensures !MatchesPattern("/actuator/health/liveness", "/actuator/**")
    ensures IntendedMatches("/actuator/health/liveness", "/actuator/**")
  {
    NestedHealthMissed();
    NestedHealthIntended();
  }

  lemma NestedHealthMissed()
    ensures PlainPattern("/actuator/**")
    ensures !MatchesPattern("/actuator/health/liveness", "/actuator/**")
  {
    DeepActuatorMissed("/actuator/health/liveness", 16);
  }

  // A URI with a `/` after the first segment below `/actuator/` escapes
  // `/actuator/**`.
  lemma DeepActuatorMissed(uri: string, j: nat)
    requires 11 <= j < |uri| && uri[j] == '/'
    ensures PlainPattern("/actuator/**")
    ensures !MatchesPattern(uri, "/actuator/**")
  {
    ActuatorPattern(uri);
    SlashLater("/actuator/", uri, j);
  }

  lemma NestedHealthIntended()
    ensures IntendedMatches("/actuator/health/liveness", "/actuator/**")
  {
    assert "/actuator/**" == "/actuator/" + "**";
    IntendedDoubleStarSubtree("/actuator/", "/actuator/health/liveness");
    assert "/actuator/" <= "/actuator/health/liveness";
  }

  /** As written, the dot of `/favicon.ico` matches any character; the
      corrected matcher takes it literally. */
  lemma DotMatchesAnyChar()
    ensures PlainPattern("/favicon.ico")
    ensures MatchesPattern("/faviconXico", "/favicon.ico")
    ensures !IntendedMatches("/faviconXico", "/favicon.ico")
  {
    UnescapedDotCase();
    IntendedLiteralExact("/favicon.ico", "/faviconXico");
  }

  // With the corrected matcher a `**` in mid-pattern spans directory levels.
  lemma IntendedDoubleStarMiddleCase()
    ensures IntendedMatches("/a/x/y/bz", "/a/**/b*")
  {
    IntendedMiddleTokens();
    var rest := Lits("/b") + [NonSlashStar];
    var u := "/a/x/y/bz";
    LitsPrefix("/a/", [AnyStar] + rest, u);
    assert u[3..] == "x/y/bz";
    IntendedMiddleRest();
  }

  lemma IntendedMiddleTokens()
    ensures IntendedTokenize("/a/**/b*") == Lits("/a/") + ([AnyStar] + (Lits("/b") + [NonSlashStar]))
  {
    assert "/a/**/b*" == "/a/" + "**/b*";
    IntendedTokenizeAppend("/a/", "**/b*");
    assert "**/b*"[2..] == "/b*";
    assert IntendedTokenize("**/b*") == [AnyStar] + IntendedTokenize("/b*");
    assert "/b*" == "/b" + "*";
    IntendedTokenizeAppend("/b", "*");
    assert IntendedTokenize("*") == [NonSlashStar];
  }

  lemma IntendedMiddleRest()
    ensures Matches([AnyStar] + (Lits("/b") + [NonSlashStar]), "x/y/bz")
  {
    var rest := Lits("/b") + [NonSlashStar];
    MatchesConcat([AnyStar], rest, "x/y/bz");
    AnyStarAlone("x/y");
    assert "x/y/bz"[..3] == "x/y" && "x/y/bz"[3..] == "/bz";
    LitsPrefix("/b", [NonSlashStar], "/bz");
    StarAlone("z");
    assert "/bz"[2..] == "z";
  }
}
