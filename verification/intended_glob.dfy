/** The usual glob meaning of an exclude pattern: literal text is escaped
    (so `.` is a plain dot), `**` matches any run of characters including
    `/`, and `*` any run without `/`. It corrects the two ways the replace
    chain of `matchesPattern` departs from that meaning. */
module IntendedGlob {
  import opened Glob
  import opened GlobFacts

  /** `**` is one token matching anything; every other character but `*` is literal. */
  function IntendedTokenize(p: string): (ts: seq<Token>)
    ensures forall i | 0 <= i < |ts| :: ts[i] != AnyChar
    decreases |p|
  {
    if |p| == 0 then []
    else if |p| >= 2 && p[0] == '*' && p[1] == '*' then [AnyStar] + IntendedTokenize(p[2..])
    else if p[0] == '*' then [NonSlashStar] + IntendedTokenize(p[1..])
    else [Literal(p[0])] + IntendedTokenize(p[1..])
  }

  predicate IntendedMatches(uri: string, pattern: string) {
    Matches(IntendedTokenize(pattern), uri)
  }

  lemma {:induction false} IntendedTokenizeAppend(w: string, q: string)
    requires '*' !in w
    ensures IntendedTokenize(w + q) == Lits(w) + IntendedTokenize(q)
    decreases |w|
  {
    if |w| == 0 {
      assert w + q == q;
    } else {
      var wq := w + q;
      assert w[0] in w;
      assert wq[0] == w[0] && wq[1..] == w[1..] + q;
      assert IntendedTokenize(wq) == [Literal(w[0])] + IntendedTokenize(wq[1..]);
      assert '*' !in w[1..] by {
        assert forall i | 0 <= i < |w[1..]| :: w[1..][i] == w[i + 1];
      }
      IntendedTokenizeAppend(w[1..], q);
      assert Lits(w) == [Literal(w[0])] + Lits(w[1..]);
    }
  }

  /** A pattern without `*` matches exactly itself; in particular a `.` in it
      matches only a dot. */
  lemma IntendedLiteralExact(p: string, uri: string)
    requires '*' !in p
    ensures IntendedMatches(uri, p) <==> uri == p
  {
    assert p + "" == p;
    IntendedTokenizeAppend(p, "");
    assert Lits(p) + [] == Lits(p);
    LitsExact(p, uri);
  }

  /** `prefix**` matches every URI that starts with the prefix, however deep. */
  lemma IntendedDoubleStarSubtree(w: string, uri: string)
    requires '*' !in w
    ensures IntendedMatches(uri, w + "**") <==> w <= uri
  {
    IntendedTokenizeAppend(w, "**");
    assert IntendedTokenize("**") == [AnyStar] by {
      assert "**"[2..] == "";
    }
    LitsPrefix(w, [AnyStar], uri);
    if w <= uri {
      AnyStarAlone(uri[|w|..]);
    }
  }

  /** An any-run token can pass over any prefix of the string. */
  lemma {:induction false} AnyStarSkip(r: seq<Token>, s: string, k: nat)
    requires k <= |s| && Matches(r, s[k..])
    ensures Matches([AnyStar] + r, s)
    decreases k
  {
    assert ([AnyStar] + r)[0] == AnyStar;
    assert ([AnyStar] + r)[1..] == r;
    if k == 0 {
      assert s[0..] == s;
    } else {
      assert s[1..][k - 1..] == s[k..];
      AnyStarSkip(r, s[1..], k - 1);
    }
  }

  /** For a pattern without `.`, every URI the as-written matcher accepts is
      accepted by the corrected one: `.[^\/]*` accepts a subset of what an
      any-run accepts. The converse fails (`DoubleStarStopsAtSlash`). */
  lemma {:induction false} AsWrittenWithinIntended(p: string, s: string)
    requires '.' !in p
    ensures Matches(Tokenize(p), s) ==> IntendedMatches(s, p)
    decreases |p|
  {
    if |p| == 0 || !Matches(Tokenize(p), s) {
      return;
    }
    if |p| >= 2 && p[0] == '*' && p[1] == '*' {
      var q := p[2..];
      assert '.' !in q by { assert forall i | 0 <= i < |q| :: q[i] == p[i + 2]; }
      assert Tokenize(p) == [AnyChar] + ([NonSlashStar] + Tokenize(q));
      assert IntendedTokenize(p) == [AnyStar] + IntendedTokenize(q);
      AnyCharPrefix([NonSlashStar] + Tokenize(q), s);
      StarPrefix(Tokenize(q), s[1..]);
      var k :| 0 <= k <= |s[1..]| && '/' !in s[1..][..k] && Matches(Tokenize(q), s[1..][k..]);
      assert s[1..][k..] == s[1 + k..];
      AsWrittenWithinIntended(q, s[1 + k..]);
      AnyStarSkip(IntendedTokenize(q), s, 1 + k);
    } else if p[0] == '*' {
      var q := p[1..];
      assert '.' !in q by { assert forall i | 0 <= i < |q| :: q[i] == p[i + 1]; }
      assert Tokenize(p) == [NonSlashStar] + Tokenize(q);
      assert IntendedTokenize(p) == [NonSlashStar] + IntendedTokenize(q);
      StarPrefix(Tokenize(q), s);
      var k :| 0 <= k <= |s| && '/' !in s[..k] && Matches(Tokenize(q), s[k..]);
      AsWrittenWithinIntended(q, s[k..]);
      StarPrefix(IntendedTokenize(q), s);
    } else {
      var q := p[1..];
      assert '.' !in q by { assert forall i | 0 <= i < |q| :: q[i] == p[i + 1]; }
      assert p[0] != '.' by { assert p[0] in p; }
      var t := [Literal(p[0])];
      assert Tokenize(p) == t + Tokenize(q);
      assert IntendedTokenize(p) == t + IntendedTokenize(q);
      assert (t + Tokenize(q))[0] == Literal(p[0]) && (t + Tokenize(q))[1..] == Tokenize(q);
      assert (t + IntendedTokenize(q))[0] == Literal(p[0]) && (t + IntendedTokenize(q))[1..] == IntendedTokenize(q);
      AsWrittenWithinIntended(q, s[1..]);
    }
  }
}
