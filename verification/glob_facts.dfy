/** What the as-written pattern matcher accepts: compositional facts about
    the token matcher, their consequences for the pattern shapes the
    configuration uses. */
module GlobFacts {
  import opened Glob

  /** The tokens of a pattern text taken character for character. */
  function Lits(w: string): (ts: seq<Token>)
    ensures |ts| == |w|
    ensures forall i | 0 <= i < |w| :: ts[i] == Literal(w[i])
    decreases |w|
  {
    if |w| == 0 then [] else [Literal(w[0])] + Lits(w[1..])
  }

  /** A string matches a concatenation of token lists iff it splits into a
      part matching the first list followed by a part matching the second. */
  lemma {:induction false} MatchesConcat(a: seq<Token>, b: seq<Token>, s: string)
    ensures Matches(a + b, s) <==> exists k :: 0 <= k <= |s| && Matches(a, s[..k]) && Matches(b, s[k..])
    decreases |a|, |s|
  {
    if |a| == 0 {
      assert a + b == b;
      if Matches(b, s) {
        assert s[..0] == [] && s[0..] == s;
        assert Matches(a, s[..0]);
      }
      if exists k :: 0 <= k <= |s| && Matches(a, s[..k]) && Matches(b, s[k..]) {
        var k :| 0 <= k <= |s| && Matches(a, s[..k]) && Matches(b, s[k..]);
        assert k == 0 && s[k..] == s;
      }
      return;
    }
    var t := a[0];
    assert (a + b)[0] == t;
    assert (a + b)[1..] == a[1..] + b;
    match t {
      case Literal(_) => ConcatSingleStep(a, b, s);
      case AnyChar => ConcatSingleStep(a, b, s);
      case NonSlashStar => ConcatStarStep(a, b, s);
      case AnyStar => ConcatStarStep(a, b, s);
    }
  }

  /** A token consuming exactly one character heads the first list. */
  lemma {:induction false} ConcatSingleStep(a: seq<Token>, b: seq<Token>, s: string)
    requires |a| > 0 && (a[0].Literal? || a[0] == AnyChar)
    ensures Matches(a + b, s) <==> exists k :: 0 <= k <= |s| && Matches(a, s[..k]) && Matches(b, s[k..])
    decreases |a|, |s|, 0
  {
    var t := a[0];
    var ok := (c: char) => if t.Literal? then c == t.ch else !LineTerminator(c);
    assert (a + b)[0] == t;
    assert (a + b)[1..] == a[1..] + b;
    assert Matches(a + b, s) == (|s| > 0 && ok(s[0]) && Matches(a[1..] + b, s[1..]));
    forall x: string
      ensures Matches(a, x) == (|x| > 0 && ok(x[0]) && Matches(a[1..], x[1..]))
    {
    }
    if |s| == 0 {
      return;
    }
    MatchesConcat(a[1..], b, s[1..]);
    if Matches(a + b, s) {
      var k' :| 0 <= k' <= |s[1..]| && Matches(a[1..], s[1..][..k']) && Matches(b, s[1..][k'..]);
      var k := k' + 1;
      assert s[..k][0] == s[0] && s[..k][1..] == s[1..][..k'];
      assert s[k..] == s[1..][k'..];
      assert Matches(a, s[..k]);
    }
    if exists k :: 0 <= k <= |s| && Matches(a, s[..k]) && Matches(b, s[k..]) {
      var k :| 0 <= k <= |s| && Matches(a, s[..k]) && Matches(b, s[k..]);
      assert k > 0;
      assert s[..k][1..] == s[1..][..k - 1];
      assert s[k..] == s[1..][k - 1..];
      assert Matches(a[1..], s[1..][..k - 1]);
    }
  }

  /** A star token heads the first list. */
  lemma {:induction false} ConcatStarStep(a: seq<Token>, b: seq<Token>, s: string)
    requires |a| > 0 && (a[0] == NonSlashStar || a[0] == AnyStar)
    ensures Matches(a + b, s) <==> exists k :: 0 <= k <= |s| && Matches(a, s[..k]) && Matches(b, s[k..])
    decreases |a|, |s|, 0
  {
    var t := a[0];
    var ok := (c: char) => t == AnyStar || c != '/';
    assert (a + b)[0] == t;
    assert (a + b)[1..] == a[1..] + b;
    assert Matches(a + b, s) == (Matches(a[1..] + b, s) || (|s| > 0 && ok(s[0]) && Matches(a + b, s[1..])));
    forall x: string
      ensures Matches(a, x) == (Matches(a[1..], x) || (|x| > 0 && ok(x[0]) && Matches(a, x[1..])))
    {
    }
    MatchesConcat(a[1..], b, s);
    if |s| > 0 {
      MatchesConcat(a, b, s[1..]);
    }
    if Matches(a + b, s) {
      if Matches(a[1..] + b, s) {
        var k :| 0 <= k <= |s| && Matches(a[1..], s[..k]) && Matches(b, s[k..]);
        assert Matches(a, s[..k]);
      } else {
        var k' :| 0 <= k' <= |s[1..]| && Matches(a, s[1..][..k']) && Matches(b, s[1..][k'..]);
        var k := k' + 1;
        assert s[..k][0] == s[0] && s[..k][1..] == s[1..][..k'];
        assert s[k..] == s[1..][k'..];
        assert Matches(a, s[..k]);
      }
    }
    if exists k :: 0 <= k <= |s| && Matches(a, s[..k]) && Matches(b, s[k..]) {
      var k :| 0 <= k <= |s| && Matches(a, s[..k]) && Matches(b, s[k..]);
      if !Matches(a[1..], s[..k]) {
        assert k > 0 && ok(s[0]);
        assert s[..k][1..] == s[1..][..k - 1];
        assert s[k..] == s[1..][k - 1..];
        assert Matches(a, s[1..][..k - 1]);
      }
    }
  }

  /** A literal prefix must be matched character for character. */
  lemma {:induction false} LitsPrefix(w: string, r: seq<Token>, s: string)
    ensures Matches(Lits(w) + r, s) <==> w <= s && Matches(r, s[|w|..])
    decreases |w|
  {
    if |w| == 0 {
      assert Lits(w) + r == r;
      assert s[0..] == s;
    } else {
      var ts := Lits(w) + r;
      assert ts[0] == Literal(w[0]);
      assert ts[1..] == Lits(w[1..]) + r;
      if |s| > 0 {
        LitsPrefix(w[1..], r, s[1..]);
        if |w| <= |s| {
          assert s[1..][|w| - 1..] == s[|w|..];
        }
        assert w <= s <==> (s[0] == w[0] && w[1..] <= s[1..]);
      }
    }
  }

  /** A pattern text without wildcards matches exactly itself. */
  lemma LitsExact(w: string, s: string)
    ensures Matches(Lits(w), s) <==> s == w
  {
    assert Lits(w) + [] == Lits(w);
    LitsPrefix(w, [], s);
  }

  /** A lone `[^\/]*` accepts exactly the strings without a `/`. */
  lemma {:induction false} StarAlone(s: string)
    ensures Matches([NonSlashStar], s) <==> '/' !in s
    decreases |s|
  {
    assert [NonSlashStar][1..] == [];
    if |s| > 0 {
      StarAlone(s[1..]);
      assert s == [s[0]] + s[1..];
    }
  }

  /** A lone any-run token accepts every string. */
  lemma {:induction false} AnyStarAlone(s: string)
    ensures Matches([AnyStar], s)
    decreases |s|
  {
    assert [AnyStar][1..] == [];
    if |s| > 0 {
      AnyStarAlone(s[1..]);
    }
  }

  /** `[^\/]*` in front of the rest consumes some slash-free prefix. */
  lemma StarPrefix(r: seq<Token>, s: string)
    ensures Matches([NonSlashStar] + r, s) <==> exists k :: 0 <= k <= |s| && '/' !in s[..k] && Matches(r, s[k..])
  {
    MatchesConcat([NonSlashStar], r, s);
    forall k | 0 <= k <= |s|
      ensures Matches([NonSlashStar], s[..k]) <==> '/' !in s[..k]
    {
      StarAlone(s[..k]);
    }
  }

  /** `[^\/]*` facing a `/` can only match the empty string. */
  lemma StarStopsAtSlash(r: seq<Token>, s: string)
    requires |s| > 0 && s[0] == '/'
    ensures Matches([NonSlashStar] + r, s) <==> Matches(r, s)
  {
    assert ([NonSlashStar] + r)[0] == NonSlashStar;
    assert ([NonSlashStar] + r)[1..] == r;
  }

  /** `.` in front of the rest consumes one character that is not a line terminator. */
  lemma AnyCharPrefix(r: seq<Token>, s: string)
    ensures Matches([AnyChar] + r, s) <==> |s| > 0 && !LineTerminator(s[0]) && Matches(r, s[1..])
  {
    assert ([AnyChar] + r)[0] == AnyChar;
    assert ([AnyChar] + r)[1..] == r;
  }

  /** Splitting a pattern text at a point before which there is no `*`. */
  lemma {:induction false} TokenizeAppend(w: string, q: string)
    requires '*' !in w
    ensures Tokenize(w + q) == Tokenize(w) + Tokenize(q)
    decreases |w|
  {
    if |w| == 0 {
      assert w + q == q;
    } else {
      assert (w + q)[0] == w[0];
      assert (w + q)[1..] == w[1..] + q;
      TokenizeAppend(w[1..], q);
    }
  }

  /** Without `*` and `.`, every character is a literal token. */
  lemma {:induction false} TokenizeLiteralText(w: string)
    requires '*' !in w && '.' !in w
    ensures Tokenize(w) == Lits(w)
    decreases |w|
  {
    if |w| > 0 {
      TokenizeLiteralText(w[1..]);
    }
  }

  lemma TokenizeDoubleStar(q: string)
    ensures Tokenize("**" + q) == [AnyChar, NonSlashStar] + Tokenize(q)
  {
    assert ("**" + q)[2..] == q;
  }

  lemma TokenizeStar()
    ensures Tokenize("*") == [NonSlashStar]
  {
  }

  lemma TokenizeDot(q: string)
    ensures Tokenize("." + q) == [AnyChar] + Tokenize(q)
  {
    assert ("." + q)[1..] == q;
  }

  lemma PlainAppend(p: string, q: string)
    requires PlainPattern(p) && PlainPattern(q)
    ensures PlainPattern(p + q)
  {
    forall i | 0 <= i < |p + q|
      ensures (p + q)[i] == '*' || (p + q)[i] == '.' || !RegexMeta((p + q)[i])
    {
      if i >= |p| {
        assert (p + q)[i] == q[i - |p|];
      }
    }
  }

  /** A pattern holding neither `*` nor `.` matches the identical URI and
      nothing else. */
  lemma LiteralPatternExact(p: string, uri: string)
    requires PlainPattern(p) && '*' !in p && '.' !in p
    ensures MatchesPattern(uri, p) <==> uri == p
  {
    TokenizeLiteralText(p);
    LitsExact(p, uri);
  }

  /** After `w`, only characters other than `/`. */
  predicate StarShape(w: string, uri: string) {
    w <= uri && '/' !in uri[|w|..]
  }

  /** After `w`, one character that is not a line terminator, then only
      characters other than `/`. */
  predicate DoubleStarShape(w: string, uri: string) {
    |uri| > |w| && w <= uri && !LineTerminator(uri[|w|]) && '/' !in uri[|w| + 1..]
  }

  /** `before`, one character that is not a line terminator, then `after`. */
  predicate DotShape(before: string, after: string, uri: string) {
    |uri| == |before| + 1 + |after| && before <= uri && !LineTerminator(uri[|before|]) && uri[|before| + 1..] == after
  }

  /** `prefix*` matches the URIs that start with the prefix and have no `/`
      after it: zero or more non-slash characters. */
  lemma PrefixStar(w: string, uri: string)
    requires PlainPattern(w) && '*' !in w && '.' !in w
    ensures PlainPattern(w + "*")
    ensures MatchesPattern(uri, w + "*") <==> StarShape(w, uri)
  {
    PlainAppend(w, "*");
    TokenizeAppend(w, "*");
    TokenizeLiteralText(w);
    TokenizeStar();
    LitsPrefix(w, [NonSlashStar], uri);
    if w <= uri {
      StarAlone(uri[|w|..]);
    }
  }

  /** `prefix**` compiles to `prefix.[^\/]*`: after the prefix exactly one
      character other than a line terminator, then no further `/`. */
  lemma PrefixDoubleStar(w: string, uri: string)
    requires PlainPattern(w) && '*' !in w && '.' !in w
    ensures PlainPattern(w + "**")
    ensures MatchesPattern(uri, w + "**") <==> DoubleStarShape(w, uri)
  {
    PlainAppend(w, "**");
    TokenizeAppend(w, "**");
    TokenizeLiteralText(w);
    assert "**" == "**" + "";
    TokenizeDoubleStar("");
    assert Tokenize("**") == [AnyChar] + [NonSlashStar];
    LitsPrefix(w, [AnyChar] + [NonSlashStar], uri);
    if w <= uri {
      var v := uri[|w|..];
      AnyCharPrefix([NonSlashStar], v);
      if |v| > 0 {
        StarAlone(v[1..]);
        assert v[1..] == uri[|w| + 1..];
      }
    }
  }

  /** `before.after` matches the URIs that are `before`, any one character
      other than a line terminator, then `after`: the dot is not escaped. */
  lemma DotBetween(before: string, after: string, uri: string)
    requires PlainPattern(before) && '*' !in before && '.' !in before
    requires PlainPattern(after) && '*' !in after && '.' !in after
    ensures PlainPattern(before + "." + after)
    ensures MatchesPattern(uri, before + "." + after) <==> DotShape(before, after, uri)
  {
    PlainAppend(before, ".");
    PlainAppend(before + ".", after);
    assert before + "." + after == before + ("." + after);
    TokenizeAppend(before, "." + after);
    TokenizeLiteralText(before);
    TokenizeDot(after);
    TokenizeLiteralText(after);
    LitsPrefix(before, [AnyChar] + Lits(after), uri);
    if before <= uri {
      var v := uri[|before|..];
      AnyCharPrefix(Lits(after), v);
      if |v| > 0 {
        LitsExact(after, v[1..]);
        assert v[1..] == uri[|before| + 1..];
      }
    }
  }

  /** A prefix is ruled out by one differing character. */
  lemma Differs(w: string, uri: string, j: nat)
    requires j < |w| && j < |uri| && w[j] != uri[j]
    ensures !(w <= uri)
  {
  }

  /** `prefix**` is ruled out by a `/` after the character following the prefix. */
  lemma SlashLater(w: string, uri: string, j: nat)
    requires |w| + 1 <= j < |uri| && uri[j] == '/'
    ensures !DoubleStarShape(w, uri)
  {
    assert uri[|w| + 1..][j - |w| - 1] == '/';
  }
}
