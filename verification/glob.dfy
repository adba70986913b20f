/** The URI pattern matcher of the metrics configuration
    (`MetricsConfiguration.matchesPattern`), modelled as the code does it:
    three literal `String.replace` calls turn the pattern into a regular
    expression, which is anchored with `^…$` and matched against the URI.

    The regular expressions this produces use only four shapes, so they are
    modelled as a list of tokens with a matcher of their own; a parser for
    that subset of Java regex syntax links the generated regex text to the
    tokens. */
module Glob {
  import opened Wrappers
  import JavaString

  /** One element of a compiled pattern.
      - `AnyChar`: the regex `.`, any one character except a line terminator;
      - `NonSlashStar`: the regex `[^\/]*`, any run of characters other than `/`;
      - `Literal(ch)`: the character itself;
      - `AnyStar`: any run of characters at all, `/` included. The code never
        produces it; the corrected matcher in `IntendedGlob` does. */
  datatype Token = AnyChar | NonSlashStar | Literal(ch: char) | AnyStar

  /** The characters `java.util.regex.Pattern` treats as line terminators,
      which `.` does not match. */
  predicate LineTerminator(c: char) {
    c == '\n' || c == '\r' || c == '\U{0085}' || c == '\U{2028}' || c == '\U{2029}'
  }

  /** Characters with a meaning of their own in Java regex syntax outside a
      character class. */
  predicate RegexMeta(c: char) {
    c in "\\^$.|?*+()[]{}"
  }

  /** A pattern within the modelled fragment: apart from the wildcard `*`
      and the (unescaped) `.`, it holds no regex metacharacter. */
  predicate PlainPattern(p: string) {
    forall i | 0 <= i < |p| :: p[i] == '*' || p[i] == '.' || !RegexMeta(p[i])
  }

  /** The three replace calls of `matchesPattern`, in their order. */
  function RegexOf(pattern: string): string {
    var step1 := JavaString.Replace(pattern, "**", ".*");
    var step2 := JavaString.Replace(step1, "*", "[^/]*");
    JavaString.Replace(step2, "/", "\\/")
  }

  /** What the replace chain does to a pattern, token by token: `**` becomes
      `.` followed by `[^\/]*` (the `*` of `.*` is rewritten by the second
      replace), a single `*` becomes `[^\/]*`, an unescaped `.` stays a regex
      wildcard, and every other character is itself. */
  function Tokenize(p: string): (ts: seq<Token>)
    ensures forall i | 0 <= i < |ts| :: ts[i] != AnyStar
    ensures forall i | 0 <= i < |ts| :: ts[i].Literal? ==> ts[i].ch != '*' && ts[i].ch != '.'
    decreases |p|
  {
    if |p| == 0 then []
    else if |p| >= 2 && p[0] == '*' && p[1] == '*' then [AnyChar, NonSlashStar] + Tokenize(p[2..])
    else if p[0] == '*' then [NonSlashStar] + Tokenize(p[1..])
    else if p[0] == '.' then [AnyChar] + Tokenize(p[1..])
    else [Literal(p[0])] + Tokenize(p[1..])
  }

  /** The regex text of one token. */
  function RenderToken(t: Token): string {
    match t
    case AnyChar => "."
    case NonSlashStar => "[^\\/]*"
    case Literal(c) => if c == '/' then "\\/" else [c]
    // the regex a corrected chain would emit for `**`; the code never emits it
    case AnyStar => "(?s:.*)"
  }

  /** The regex text of a token list: the renderings one after another. */
  function Render(ts: seq<Token>): string
    decreases |ts|
  {
    if |ts| == 0 then "" else RenderToken(ts[0]) + Render(ts[1..])
  }

  lemma {:induction false} RenderConcat(a: seq<Token>, b: seq<Token>)
    ensures Render(a + b) == Render(a) + Render(b)
    decreases |a|
  {
    if |a| == 0 {
      assert a + b == b;
    } else {
      assert (a + b)[0] == a[0];
      assert (a + b)[1..] == a[1..] + b;
      RenderConcat(a[1..], b);
    }
  }

  /** Anchored matching of a whole string against a token list, with the
      backtracking semantics of `String.matches`: the string matches iff it
      can be split into pieces each accepted by its token. */
  predicate Matches(ts: seq<Token>, s: string)
    decreases |ts|, |s|
  {
    if |ts| == 0 then |s| == 0
    else match ts[0]
      case Literal(c) => |s| > 0 && s[0] == c && Matches(ts[1..], s[1..])
      case AnyChar => |s| > 0 && !LineTerminator(s[0]) && Matches(ts[1..], s[1..])
      case NonSlashStar => Matches(ts[1..], s) || (|s| > 0 && s[0] != '/' && Matches(ts, s[1..]))
      case AnyStar => Matches(ts[1..], s) || (|s| > 0 && Matches(ts, s[1..]))
  }

  /** Token lists whose rendering the regex subset parser reads back. */
  predicate Renderable(ts: seq<Token>) {
    forall i | 0 <= i < |ts| :: ts[i] != AnyStar && (ts[i].Literal? ==> ts[i].ch == '/' || !RegexMeta(ts[i].ch))
  }

  /** Parser for the fragment of Java regex syntax the replace chain emits:
      `.`, `[^\/]*`, the escaped slash `\/` and plain characters. Anything
      else is outside the model and yields `None`. */
  function ParseBody(r: string): Option<seq<Token>>
    decreases |r|
  {
    if |r| == 0 then Some([])
    else
      var (t, n) :=
        if |r| >= 6 && r[..6] == "[^\\/]*" then (Some(NonSlashStar), 6)
        else if |r| >= 2 && r[..2] == "\\/" then (Some(Literal('/')), 2)
        else if r[0] == '.' then (Some(AnyChar), 1)
        else if !RegexMeta(r[0]) then (Some(Literal(r[0])), 1)
        else (None, 1);
      match (t, ParseBody(r[n..]))
      case (Some(tok), Some(rest)) => Some([tok] + rest)
      case _ => None
  }

  /** `Regex.matches(regex, s)` for an anchored regex `^…$` in the modelled
      fragment; `None` when the regex lies outside it. */
  function RegexMatches(regex: string, s: string): Option<bool> {
    if |regex| >= 2 && regex[0] == '^' && regex[|regex| - 1] == '$' then
      match ParseBody(regex[1..|regex| - 1])
      case Some(ts) => Some(Matches(ts, s))
      case None => None
    else None
  }

  /** The replace chain produces exactly the renderings of the pattern's
      tokens, for every pattern. */
  lemma {:induction false} RegexOfIsRender(p: string)
    ensures RegexOf(p) == Render(Tokenize(p))
    decreases |p|
  {
    var R1 := (x: string) => JavaString.Replace(x, "**", ".*");
    var R2 := (x: string) => JavaString.Replace(x, "*", "[^/]*");
    var R3 := (x: string) => JavaString.Replace(x, "/", "\\/");
    if |p| == 0 {
      return;
    }
    var head: string, n: nat;
    if |p| >= 2 && p[0] == '*' && p[1] == '*' {
      head, n := ".*", 2;
      JavaString.ReplaceHeadMatch(p, "**", ".*");
    } else {
      head, n := [p[0]], 1;
      JavaString.ReplaceHeadCopy(p, "**", ".*");
    }
    var rest := p[n..];
    assert R1(p) == head + R1(rest);
    JavaString.ReplaceCharConcat(head, R1(rest), '*', "[^/]*");
    JavaString.ReplaceCharConcat(R2(head), R2(R1(rest)), '/', "\\/");
    assert RegexOf(p) == R3(R2(head)) + RegexOf(rest);
    RegexOfIsRender(rest);
    var ts := Tokenize(p);
    var first := if n == 2 then [AnyChar, NonSlashStar]
                 else if p[0] == '*' then [NonSlashStar]
                 else if p[0] == '.' then [AnyChar]
                 else [Literal(p[0])];
    assert ts == first + Tokenize(rest);
    RenderConcat(first, Tokenize(rest));
    HeadRendering(head, first, n, p[0]);
  }

  /** The replace chain applied to the head of the pattern. */
  lemma HeadRendering(head: string, first: seq<Token>, n: nat, c: char)
    requires n == 2 ==> head == ".*" && first == [AnyChar, NonSlashStar]
    requires n != 2 ==> head == [c] && first == if c == '*' then [NonSlashStar]
                                                 else if c == '.' then [AnyChar]
                                                 else [Literal(c)]
    ensures JavaString.Replace(JavaString.Replace(head, "*", "[^/]*"), "/", "\\/") == Render(first)
  {
    if n == 2 {
      HeadDoubleStar();
    } else {
      HeadSingle(c);
    }
  }

  /** What `**` has become after the first replace, through the other two. */
  lemma HeadDoubleStar()
    ensures JavaString.Replace(JavaString.Replace(".*", "*", "[^/]*"), "/", "\\/") == Render([AnyChar, NonSlashStar])
  {
    StarAfterDot();
    SlashEscapeDot();
    assert Render([AnyChar, NonSlashStar]) == RenderToken(AnyChar) + Render([NonSlashStar]);
  }

  lemma StarAfterDot()
    ensures JavaString.Replace(".*", "*", "[^/]*") == ".[^/]*"
  {
    assert ".*" == ['.'] + ['*'];
    JavaString.ReplaceCharConcat(['.'], ['*'], '*', "[^/]*");
    JavaString.ReplaceCharSingle('.', '*', "[^/]*");
    JavaString.ReplaceCharSingle('*', '*', "[^/]*");
  }

  /** Any other single character through the second and third replace. */
  lemma HeadSingle(c: char)
    ensures var first := if c == '*' then [NonSlashStar] else if c == '.' then [AnyChar] else [Literal(c)];
      JavaString.Replace(JavaString.Replace([c], "*", "[^/]*"), "/", "\\/") == Render(first)
  {
    JavaString.ReplaceCharSingle(c, '*', "[^/]*");
    if c == '*' {
      SlashEscapeClass();
    } else {
      JavaString.ReplaceCharSingle(c, '/', "\\/");
    }
  }

  lemma SlashEscapeDot()
    ensures JavaString.Replace(".[^/]*", "/", "\\/") == ".[^\\/]*"
  {
    JavaString.ReplaceCharBetween(".[^", '/', "]*", "\\/");
    assert ".[^" + ['/'] + "]*" == ".[^/]*";
  }

  lemma SlashEscapeClass()
    ensures JavaString.Replace("[^/]*", "/", "\\/") == "[^\\/]*"
  {
    JavaString.ReplaceCharBetween("[^", '/', "]*", "\\/");
    assert "[^" + ['/'] + "]*" == "[^/]*";
  }

  /** The parser reads a rendering back as the tokens it came from. */
  lemma {:induction false} ParseRender(ts: seq<Token>)
    requires Renderable(ts)
    ensures ParseBody(Render(ts)) == Some(ts)
    decreases |ts|
  {
    if |ts| > 0 {
      var t := ts[0];
      var tail := Render(ts[1..]);
      var r := RenderToken(t) + tail;
      assert Render(ts) == r;
      assert Renderable(ts[1..]) by {
        forall i | 0 <= i < |ts[1..]|
          ensures ts[1..][i] != AnyStar && (ts[1..][i].Literal? ==> ts[1..][i].ch == '/' || !RegexMeta(ts[1..][i].ch))
        {
          assert ts[1..][i] == ts[i + 1];
        }
      }
      ParseRender(ts[1..]);
      assert ts == [t] + ts[1..];
      match t
      case NonSlashStar =>
        assert r[..6] == "[^\\/]*";
        assert r[6..] == tail;
      case AnyChar =>
        assert r[0] == '.';
        assert |r| >= 6 ==> r[..6] != "[^\\/]*" by { if |r| >= 6 { assert r[..6][0] == '.'; } }
        assert |r| >= 2 ==> r[..2] != "\\/" by { if |r| >= 2 { assert r[..2][0] == '.'; } }
        assert r[1..] == tail;
      case Literal(c) =>
        if c == '/' {
          assert |r| >= 6 ==> r[..6] != "[^\\/]*" by { if |r| >= 6 { assert r[..6][0] == '\\'; } }
          assert r[..2] == "\\/";
          assert r[2..] == tail;
        } else {
          assert !RegexMeta(c);
          assert r[0] == c;
          assert |r| >= 6 ==> r[..6] != "[^\\/]*" by { if |r| >= 6 { assert r[..6][0] == c; } }
          assert |r| >= 2 ==> r[..2] != "\\/" by { if |r| >= 2 { assert r[..2][0] == c; } }
          assert r[1..] == tail;
        }
    }
  }

  /** `matchesPattern(uri, pattern)`: build the regex with the replace chain,
      anchor it, and match the URI against it. For a plain pattern the regex
      always lies in the modelled fragment and the decision is exactly the
      token matcher run on the pattern's tokens. */
  function MatchesPattern(uri: string, pattern: string): (r: bool)
    requires PlainPattern(pattern)
    ensures r <==> Matches(Tokenize(pattern), uri)
  {
    var regex := "^" + RegexOf(pattern) + "$";
    var m := RegexMatches(regex, uri);
    TokenizePlainIsRenderable(pattern);
    RegexOfIsRender(pattern);
    ParseRender(Tokenize(pattern));
    assert regex[1..|regex| - 1] == RegexOf(pattern);
    m.Some? && m.value
  }

  lemma {:induction false} TokenizePlainIsRenderable(p: string)
    requires PlainPattern(p)
    ensures Renderable(Tokenize(p))
    decreases |p|
  {
    if |p| > 0 {
      var n := if |p| >= 2 && p[0] == '*' && p[1] == '*' then 2 else 1;
      var first := if n == 2 then [AnyChar, NonSlashStar]
                   else if p[0] == '*' then [NonSlashStar]
                   else if p[0] == '.' then [AnyChar]
                   else [Literal(p[0])];
      assert PlainPattern(p[n..]) by {
        forall i | 0 <= i < |p[n..]|
          ensures p[n..][i] == '*' || p[n..][i] == '.' || !RegexMeta(p[n..][i])
        {
          assert p[n..][i] == p[i + n];
        }
      }
      TokenizePlainIsRenderable(p[n..]);
      assert Tokenize(p) == first + Tokenize(p[n..]);
      assert Renderable(first) by {
        assert p[0] == '*' || p[0] == '.' || !RegexMeta(p[0]);
      }
      RenderableConcat(first, Tokenize(p[n..]));
    }
  }

  lemma RenderableConcat(a: seq<Token>, b: seq<Token>)
    requires Renderable(a) && Renderable(b)
    ensures Renderable(a + b)
  {
    forall i | 0 <= i < |a + b|
      ensures (a + b)[i] != AnyStar && ((a + b)[i].Literal? ==> (a + b)[i].ch == '/' || !RegexMeta((a + b)[i].ch))
    {
      if i < |a| {
        assert (a + b)[i] == a[i];
      } else {
        assert (a + b)[i] == b[i - |a|];
      }
    }
  }
}
