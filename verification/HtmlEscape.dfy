/** HTML escaping as the server does it, in four replacement passes. */
module HtmlEscape {
  import opened Text

  function Escape(s: string): string {
    Replace(Replace(Replace(Replace(s, ['&'], "&amp;"), ['<'], "&lt;"), ['>'], "&gt;"), ['"'], "&quot;")
  }

  /** What each character becomes. */
  function EscapedChar(c: char): string {
    if c == '&' then "&amp;"
    else if c == '<' then "&lt;"
    else if c == '>' then "&gt;"
    else if c == '"' then "&quot;"
    else [c]
  }

  /** Reads the four entities back, left to right. */
  function Unescape(s: string): string {
    if s == [] then []
    else if "&amp;" <= s then "&" + Unescape(s[5..])
    else if "&lt;" <= s then "<" + Unescape(s[4..])
    else if "&gt;" <= s then ">" + Unescape(s[4..])
    else if "&quot;" <= s then "\"" + Unescape(s[6..])
    else [s[0]] + Unescape(s[1..])
  }

  lemma {:induction false} RewriteKeeps(s: string, c: char, sub: string)
    requires c !in s
    ensures FlatMap(s, CharRewrite(c, sub)) == s
  {
    if s != [] {
      assert s == [s[0]] + s[1..] && s[0] != c;
      RewriteKeeps(s[1..], c, sub);
    }
  }

  function AfterTwoPasses(c: char): string {
    if c == '&' then "&amp;" else if c == '<' then "&lt;" else [c]
  }

  function AfterThreePasses(c: char): string {
    if c == '&' then "&amp;" else if c == '<' then "&lt;" else if c == '>' then "&gt;" else [c]
  }

  lemma RewriteSingle(x: char, c: char, sub: string)
    ensures FlatMap([x], CharRewrite(c, sub)) == if x == c then sub else [x]
  {
    assert [x][1..] == [];
  }

  /** A further pass rewrites one more character and leaves the earlier entities alone. */
  lemma OneMorePass(s: string, before: char -> string, x: char, sub: string, after: char -> string)
    requires forall c :: x !in before(c) || before(c) == [x]
    requires forall c :: after(c) == if before(c) == [x] then sub else before(c)
    ensures Replace(FlatMap(s, before), [x], sub) == FlatMap(s, after)
  {
    ReplaceCharIsFlatMap(FlatMap(s, before), x, sub);
    forall c ensures after(c) == FlatMap(before(c), CharRewrite(x, sub)) {
      if before(c) == [x] {
        RewriteSingle(x, x, sub);
      } else {
        RewriteKeeps(before(c), x, sub);
      }
    }
    FlatMapFusion(s, before, CharRewrite(x, sub), after);
  }

  /** The passes do not disturb each other: together they are one map over the characters. */
  lemma EscapeIsPerCharacter(s: string)
    ensures Escape(s) == FlatMap(s, EscapedChar)
  {
    ReplaceCharIsFlatMap(s, '&', "&amp;");
    SecondPass(s);
    ThirdPass(s);
    FourthPass(s);
  }

  lemma SecondPass(s: string)
    ensures Replace(FlatMap(s, CharRewrite('&', "&amp;")), ['<'], "&lt;") == FlatMap(s, AfterTwoPasses)
  {
    OneMorePass(s, CharRewrite('&', "&amp;"), '<', "&lt;", AfterTwoPasses);
  }

  lemma ThirdPass(s: string)
    ensures Replace(FlatMap(s, AfterTwoPasses), ['>'], "&gt;") == FlatMap(s, AfterThreePasses)
  {
    OneMorePass(s, AfterTwoPasses, '>', "&gt;", AfterThreePasses);
  }

  lemma FourthPass(s: string)
    ensures Replace(FlatMap(s, AfterThreePasses), ['"'], "&quot;") == FlatMap(s, EscapedChar)
  {
    OneMorePass(s, AfterThreePasses, '"', "&quot;", EscapedChar);
  }

  lemma UnescapeChar(c: char, rest: string)
    ensures Unescape(EscapedChar(c) + rest) == [c] + Unescape(rest)
  {
    var e := EscapedChar(c);
    var s := e + rest;
    assert s[..|e|] == e && s[|e|..] == rest;
    if c == '&' {
      assert "&amp;" <= s;
    } else if c == '<' {
      assert "&lt;" <= s && s[1] == 'l' && "&amp;"[1] == 'a';
    } else if c == '>' {
      assert "&gt;" <= s && s[1] == 'g' && "&amp;"[1] == 'a' && "&lt;"[1] == 'l';
    } else if c == '"' {
      assert "&quot;" <= s && s[1] == 'q' && "&amp;"[1] == 'a' && "&lt;"[1] == 'l' && "&gt;"[1] == 'g';
    } else {
      assert s[0] == c && "&amp;"[0] == '&' && "&lt;"[0] == '&' && "&gt;"[0] == '&' && "&quot;"[0] == '&';
    }
  }

  /** Escaping loses nothing and leaves no markup character. */
  lemma EscapeRoundTrip(s: string)
    ensures Unescape(Escape(s)) == s
    ensures '<' !in Escape(s) && '>' !in Escape(s) && '"' !in Escape(s)
  {
    EscapeIsPerCharacter(s);
    EscapedRoundTrip(s);
  }

  lemma {:induction false} EscapedRoundTrip(s: string)
    ensures Unescape(FlatMap(s, EscapedChar)) == s
    ensures var e := FlatMap(s, EscapedChar); '<' !in e && '>' !in e && '"' !in e
  {
    if s != [] {
      UnescapeChar(s[0], FlatMap(s[1..], EscapedChar));
      EscapedRoundTrip(s[1..]);
    }
  }
}
