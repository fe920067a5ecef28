/** String operations that the server takes from the Rust and Python standard libraries. */
module Text {
  /** Left-to-right, non-overlapping replacement (`str::replace`). */
  function Replace(s: string, pat: string, sub: string): string
    requires pat != []
    decreases |s|
  {
    if s == [] then []
    else if pat <= s then sub + Replace(s[|pat|..], pat, sub)
    else [s[0]] + Replace(s[1..], pat, sub)
  }

  /** Whether `part` occurs somewhere in `s`. */
  ghost predicate Contains(s: string, part: string) {
    exists i :: 0 <= i <= |s| && part <= s[i..]
  }

  /** Removes the longest prefix and suffix made of characters satisfying `p`. */
  function TrimBy(s: string, p: char -> bool): string {
    TrimEndBy(TrimStartBy(s, p), p)
  }

  function TrimStartBy(s: string, p: char -> bool): string {
    if s != [] && p(s[0]) then TrimStartBy(s[1..], p) else s
  }

  function TrimEndBy(s: string, p: char -> bool): string {
    if s != [] && p(s[|s| - 1]) then TrimEndBy(s[..|s| - 1], p) else s
  }

  /** `s` neither starts nor ends with a character satisfying `p`. */
  predicate TrimmedBy(s: string, p: char -> bool) {
    s == [] || (!p(s[0]) && !p(s[|s| - 1]))
  }

  /** Applies `f` to every character and concatenates. */
  function FlatMap(s: string, f: char -> string): string {
    if s == [] then [] else f(s[0]) + FlatMap(s[1..], f)
  }

  /** Concatenation of `parts` with `sep` between neighbours (`join`). */
  function Join(parts: seq<string>, sep: string): string {
    if parts == [] then []
    else if |parts| == 1 then parts[0]
    else parts[0] + sep + Join(parts[1..], sep)
  }

  /** `char::is_whitespace` of Rust: the Unicode White_Space property. */
  predicate IsWhitespace(c: char) {
    || '\U{0009}' <= c <= '\U{000D}' || c == ' ' || c == '\U{0085}' || c == '\U{00A0}'
    || c == '\U{1680}' || '\U{2000}' <= c <= '\U{200A}' || c == '\U{2028}' || c == '\U{2029}'
    || c == '\U{202F}' || c == '\U{205F}' || c == '\U{3000}'
  }

  /** The twenty-five white space characters, by decimal code point. */
  lemma WhitespaceByCodePoint(c: char)
    ensures IsWhitespace(c) <==>
      var n := c as int;
      || 9 <= n <= 13 || n == 32 || n == 133 || n == 160 || n == 5760 || 8192 <= n <= 8202
      || n == 8232 || n == 8233 || n == 8239 || n == 8287 || n == 12288
    ensures IsPythonSpace(c) <==> IsWhitespace(c) || 28 <= c as int <= 31
  {
  }

  /** `str.isspace` of Python: the characters above and the four information separators. */
  predicate IsPythonSpace(c: char) {
    IsWhitespace(c) || '\U{001C}' <= c <= '\U{001F}'
  }

  /** `str::trim` of Rust. */
  function Trim(s: string): string {
    TrimBy(s, IsWhitespace)
  }

  /** A joined text grows by a separator and the new part. */
  lemma {:induction false} JoinSnoc(parts: seq<string>, part: string, sep: string)
    ensures Join(parts + [part], sep) == if parts == [] then part else Join(parts, sep) + sep + part
  {
    if parts == [] {
      assert parts + [part] == [part];
    } else {
      var rest := parts[1..];
      assert (parts + [part])[1..] == rest + [part];
      JoinSnoc(rest, part, sep);
      if rest != [] {
        var tail := Join(rest, sep);
        assert parts[0] + sep + (tail + sep + part) == parts[0] + sep + tail + sep + part;
      }
    }
  }

  lemma {:induction false} TrimStartBounds(s: string, p: char -> bool)
    ensures var t := TrimStartBy(s, p); |t| <= |s| && t == s[|s| - |t|..]
    ensures var t := TrimStartBy(s, p); t != [] ==> !p(t[0])
    ensures forall k :: 0 <= k < |s| - |TrimStartBy(s, p)| ==> p(s[k])
    ensures (forall c :: c in s ==> !p(c)) ==> TrimStartBy(s, p) == s
  {
    if s != [] && p(s[0]) {
      TrimStartBounds(s[1..], p);
    }
  }

  lemma {:induction false} TrimEndBounds(s: string, p: char -> bool)
    ensures var t := TrimEndBy(s, p); t <= s && (t != [] ==> !p(t[|t| - 1]))
    ensures forall k :: |TrimEndBy(s, p)| <= k < |s| ==> p(s[k])
    ensures (forall c :: c in s ==> !p(c)) ==> TrimEndBy(s, p) == s
  {
    if s != [] && p(s[|s| - 1]) {
      TrimEndBounds(s[..|s| - 1], p);
    }
  }

  /** Trimming leaves a trimmed piece of the input, and changes nothing exactly on trimmed input. */
  lemma TrimByTrims(s: string, p: char -> bool)
    ensures TrimmedBy(TrimBy(s, p), p)
    ensures TrimBy(s, p) == s <==> TrimmedBy(s, p)
    ensures forall c :: c in TrimBy(s, p) ==> c in s
    ensures TrimBy(s, p) == s || |TrimBy(s, p)| < |s|
  {
    TrimStartBounds(s, p);
    TrimEndBounds(TrimStartBy(s, p), p);
  }

  /** `t` is `s` without what satisfies `p` at its two ends. */
  ghost predicate IsTrimOf(t: string, s: string, p: char -> bool) {
    && TrimmedBy(t, p)
    && exists i, j :: 0 <= i <= j <= |s| && t == s[i..j]
                      && (forall k :: 0 <= k < i ==> p(s[k])) && (forall k :: j <= k < |s| ==> p(s[k]))
  }

  lemma {:induction false} TrimStartAt(s: string, i: nat, p: char -> bool)
    requires i <= |s| && (forall k :: 0 <= k < i ==> p(s[k])) && (i < |s| ==> !p(s[i]))
    ensures TrimStartBy(s, p) == s[i..]
  {
    if i > 0 {
      TrimStartAt(s[1..], i - 1, p);
    }
  }

  lemma {:induction false} TrimEndAt(s: string, j: nat, p: char -> bool)
    requires j <= |s| && (forall k :: j <= k < |s| ==> p(s[k])) && (j > 0 ==> !p(s[j - 1]))
    ensures TrimEndBy(s, p) == s[..j]
  {
    if j < |s| {
      TrimEndAt(s[..|s| - 1], j, p);
    } else {
      assert s[..j] == s;
    }
  }

  lemma OnlyTrim(t: string, s: string, i: nat, j: nat, p: char -> bool)
    requires TrimmedBy(t, p) && i <= j <= |s| && t == s[i..j]
    requires (forall k :: 0 <= k < i ==> p(s[k])) && (forall k :: j <= k < |s| ==> p(s[k]))
    ensures t == TrimBy(s, p)
  {
    if i == j {
      TrimStartAt(s, |s|, p);
    } else {
      assert t[0] == s[i] && t[|t| - 1] == s[j - 1];
      TrimStartAt(s, i, p);
      TrimEndAt(s[i..], j - i, p);
      assert s[i..][..j - i] == t;
    }
  }

  lemma TrimIsTrim(s: string, p: char -> bool)
    ensures IsTrimOf(TrimBy(s, p), s, p)
  {
    var u := TrimStartBy(s, p);
    var i := |s| - |u|;
    TrimStartBounds(s, p);
    TrimByTrims(s, p);
    TrimEndPart(s, i, u, p);
    PieceIsTrim(TrimBy(s, p), s, i, i + |TrimBy(s, p)|, p);
  }

  lemma TrimEndPart(s: string, i: nat, u: string, p: char -> bool)
    requires i <= |s| && u == s[i..]
    ensures var r := TrimEndBy(u, p);
      i + |r| <= |s| && r == s[i..i + |r|] && forall k :: i + |r| <= k < |s| ==> p(s[k])
  {
    TrimEndBounds(u, p);
    var r := TrimEndBy(u, p);
    forall k | i + |r| <= k < |s| ensures p(s[k]) {
      assert s[k] == u[k - i];
    }
  }

  lemma PieceIsTrim(t: string, s: string, i: nat, j: nat, p: char -> bool)
    requires i <= j <= |s| && t == s[i..j] && TrimmedBy(t, p)
    requires (forall k :: 0 <= k < i ==> p(s[k])) && (forall k :: j <= k < |s| ==> p(s[k]))
    ensures IsTrimOf(t, s, p)
  {
  }

  lemma StartPart(s: string, p: char -> bool)
    returns (a: string)
    ensures s == a + TrimStartBy(s, p) && forall k :: 0 <= k < |a| ==> p(a[k])
  {
    TrimStartBounds(s, p);
    a := s[..|s| - |TrimStartBy(s, p)|];
  }

  lemma EndPart(s: string, p: char -> bool)
    returns (b: string)
    ensures s == TrimEndBy(s, p) + b && forall k :: 0 <= k < |b| ==> p(b[k])
  {
    TrimEndBounds(s, p);
    b := s[|TrimEndBy(s, p)|..];
  }

  /** What is cut off at the two ends. */
  lemma TrimParts(s: string, p: char -> bool)
    returns (a: string, b: string)
    ensures s == a + (TrimBy(s, p) + b)
    ensures (forall k :: 0 <= k < |a| ==> p(a[k])) && (forall k :: 0 <= k < |b| ==> p(b[k]))
  {
    a := StartPart(s, p);
    b := EndPart(TrimStartBy(s, p), p);
  }

  /** Trimming is what it should be, and nothing else is. */
  lemma TrimIff(t: string, s: string, p: char -> bool)
    ensures IsTrimOf(t, s, p) <==> t == TrimBy(s, p)
  {
    TrimIsTrim(s, p);
    if IsTrimOf(t, s, p) {
      var i, j :| 0 <= i <= j <= |s| && t == s[i..j]
                  && (forall k :: 0 <= k < i ==> p(s[k])) && (forall k :: j <= k < |s| ==> p(s[k]));
      OnlyTrim(t, s, i, j, p);
    }
  }

  lemma TrimByTwice(s: string, p: char -> bool)
    ensures TrimBy(TrimBy(s, p), p) == TrimBy(s, p)
  {
    TrimByTrims(s, p);
    TrimByTrims(TrimBy(s, p), p);
  }

  lemma {:induction false} FlatMapConcat(a: string, b: string, f: char -> string)
    ensures FlatMap(a + b, f) == FlatMap(a, f) + FlatMap(b, f)
  {
    if a == [] {
      assert a + b == b;
    } else {
      assert (a + b)[1..] == a[1..] + b;
      FlatMapConcat(a[1..], b, f);
    }
  }

  /** Two passes are one pass with the composed character map. */
  lemma {:induction false} FlatMapFusion(s: string, f: char -> string, g: char -> string, h: char -> string)
    requires forall c :: h(c) == FlatMap(f(c), g)
    ensures FlatMap(FlatMap(s, f), g) == FlatMap(s, h)
  {
    if s != [] {
      FlatMapConcat(f(s[0]), FlatMap(s[1..], f), g);
      FlatMapFusion(s[1..], f, g, h);
    }
  }

  /** The character map that rewrites one character. */
  function CharRewrite(c: char, sub: string): char -> string {
    x => if x == c then sub else [x]
  }

  /** Replacing a one-character pattern is a character map. */
  lemma {:induction false} ReplaceCharIsFlatMap(s: string, c: char, sub: string)
    ensures Replace(s, [c], sub) == FlatMap(s, CharRewrite(c, sub))
  {
    if s != [] {
      ReplaceCharIsFlatMap(s[1..], c, sub);
    }
  }

  /** Characters that cannot start the pattern are copied. */
  lemma {:induction false} ReplaceSkips(plain: string, rest: string, pat: string, sub: string)
    requires pat != [] && pat[0] !in plain
    ensures Replace(plain + rest, pat, sub) == plain + Replace(rest, pat, sub)
  {
    if plain == [] {
      assert plain + rest == rest;
    } else {
      assert (plain + rest)[1..] == plain[1..] + rest;
      assert plain[0] != pat[0] && (plain + rest)[0] == plain[0];
      ReplaceSkips(plain[1..], rest, pat, sub);
    }
  }

  /** Text in which the pattern never starts is copied. */
  lemma {:induction false} ReplaceCopies(text: string, rest: string, pat: string, sub: string)
    requires pat != [] && forall o :: 0 <= o < |text| ==> !(pat <= text[o..] + rest)
    ensures Replace(text + rest, pat, sub) == text + Replace(rest, pat, sub)
  {
    if text == [] {
      assert text + rest == rest;
    } else {
      assert text[0..] + rest == text + rest && (text + rest)[1..] == text[1..] + rest;
      assert forall o :: 0 <= o < |text[1..]| ==> text[1..][o..] == text[o + 1..];
      ReplaceCopies(text[1..], rest, pat, sub);
    }
  }

  lemma {:induction false} ReplaceNoLonger(s: string, pat: string, sub: string)
    requires |sub| <= |pat| && pat != []
    ensures |Replace(s, pat, sub)| <= |s|
    decreases |s|
  {
    if s != [] {
      ReplaceNoLonger(if pat <= s then s[|pat|..] else s[1..], pat, sub);
    }
  }

  /** Replacing by something shorter shortens the text exactly when the pattern occurs. */
  lemma {:induction false} ReplaceShortens(s: string, pat: string, sub: string)
    requires pat != [] && |sub| < |pat|
    ensures Contains(s, pat) <==> |Replace(s, pat, sub)| < |s|
    ensures !Contains(s, pat) ==> Replace(s, pat, sub) == s
    decreases |s|
  {
    if s == [] {
    } else if pat <= s {
      assert s[0..] == s;
      ReplaceNoLonger(s[|pat|..], pat, sub);
    } else {
      ReplaceShortens(s[1..], pat, sub);
      ContainsLater(s, pat);
    }
  }

  lemma {:induction false} ReplaceNoShorter(s: string, pat: string, sub: string)
    requires |sub| >= |pat| && pat != []
    ensures |Replace(s, pat, sub)| >= |s|
    decreases |s|
  {
    if s != [] {
      ReplaceNoShorter(if pat <= s then s[|pat|..] else s[1..], pat, sub);
    }
  }

  lemma ContainsLater(s: string, part: string)
    requires s != [] && !(part <= s)
    ensures Contains(s, part) <==> Contains(s[1..], part)
  {
    if i :| 0 <= i <= |s| && part <= s[i..] {
      assert i > 0 && s[i..] == s[1..][i - 1..];
    }
    if i :| 0 <= i <= |s[1..]| && part <= s[1..][i..] {
      assert s[1..][i..] == s[i + 1..];
    }
  }

  lemma OccurrenceChanges(rest: string, pat: string, sub: string)
    requires pat != [] && sub != pat
    ensures sub + Replace(rest, pat, sub) != pat + rest
  {
    if |sub| < |pat| {
      ReplaceNoLonger(rest, pat, sub);
    } else if |sub| > |pat| {
      ReplaceNoShorter(rest, pat, sub);
    } else {
      assert (sub + Replace(rest, pat, sub))[..|pat|] == sub && (pat + rest)[..|pat|] == pat;
    }
  }

  /** Replacing changes the text exactly when the pattern occurs and is not its own substitute. */
  lemma {:induction false} ReplaceKeepsIff(s: string, pat: string, sub: string)
    requires pat != []
    ensures Replace(s, pat, sub) == s <==> !Contains(s, pat) || sub == pat
    decreases |s|
  {
    if s == [] {
    } else if pat <= s {
      var rest := s[|pat|..];
      assert s == pat + rest && s[0..] == s;
      ReplaceKeepsIff(rest, pat, sub);
      if sub != pat {
        OccurrenceChanges(rest, pat, sub);
      }
    } else {
      ContainsLater(s, pat);
      ReplaceKeepsIff(s[1..], pat, sub);
      assert s == [s[0]] + s[1..];
      assert Replace(s, pat, sub)[1..] == Replace(s[1..], pat, sub);
    }
  }
}
