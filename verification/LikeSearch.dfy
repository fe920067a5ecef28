/**
 Substring search in series and collection names: the LIKE pattern that the server builds and the
 query folds, LIKE itself as a matcher with backslash as its escape character, and when they mean
 substring.
 */
module LikeSearch {
  import opened Sequences
  import opened Text

  /** `LIKE`: `%` matches any text, `_` any character, and backslash quotes the next character. */
  predicate LikeMatches(s: string, pattern: string)
    decreases |s| + |pattern|
  {
    if pattern == [] then s == []
    else if pattern[0] == '%' then
      LikeMatches(s, pattern[1..]) || (s != [] && LikeMatches(s[1..], pattern))
    else if pattern[0] == '_' then s != [] && LikeMatches(s[1..], pattern[1..])
    else if pattern[0] == '\\' then
      |pattern| > 1 && s != [] && s[0] == pattern[1] && LikeMatches(s[1..], pattern[2..])
    else s != [] && s[0] == pattern[0] && LikeMatches(s[1..], pattern[1..])
  }

  /** Quotes the two wildcards, one replacement pass each. */
  function EscapeWildcards(name: string): string {
    Replace(Replace(name, ['%'], "\\%"), ['_'], "\\_")
  }

  function SearchPattern(name: string): string {
    "%" + EscapeWildcards(name) + "%"
  }

  function EscapedChar(c: char): string {
    if c == '%' then "\\%" else if c == '_' then "\\_" else [c]
  }

  lemma EscapeIsPerCharacter(name: string)
    ensures EscapeWildcards(name) == FlatMap(name, EscapedChar)
  {
    var percent, underscore := CharRewrite('%', "\\%"), CharRewrite('_', "\\_");
    ReplaceCharIsFlatMap(name, '%', "\\%");
    ReplaceCharIsFlatMap(FlatMap(name, percent), '_', "\\_");
    forall c ensures EscapedChar(c) == FlatMap(percent(c), underscore) {
      assert "\\%"[1..] == "%" && "%"[1..] == [] && [c][1..] == [];
    }
    FlatMapFusion(name, percent, underscore, EscapedChar);
  }

  lemma {:induction false} PercentMatchesAnything(s: string)
    ensures LikeMatches(s, "%")
  {
    if s != [] {
      PercentMatchesAnything(s[1..]);
    } else {
      assert LikeMatches(s, "%"[1..]);
    }
  }

  /** A leading `%` lets the rest of the pattern match any suffix. */
  lemma {:induction false} PercentSkipsPrefix(s: string, pattern: string)
    ensures LikeMatches(s, "%" + pattern) <==> exists i :: 0 <= i <= |s| && LikeMatches(s[i..], pattern)
  {
    var p := "%" + pattern;
    assert p[1..] == pattern && s[0..] == s;
    if s == [] {
      assert LikeMatches(s, p) == LikeMatches(s[0..], pattern);
    } else {
      PercentSkipsPrefix(s[1..], pattern);
      if i :| 0 <= i <= |s| && LikeMatches(s[i..], pattern) {
        if i > 0 {
          assert s[1..][i - 1..] == s[i..];
        }
      }
      if LikeMatches(s[1..], p) {
        var i :| 0 <= i <= |s[1..]| && LikeMatches(s[1..][i..], pattern);
        assert s[1..][i..] == s[i + 1..];
      }
    }
  }

  // ── Patterns as characters, quoted or not ──────────────────────────────────

  datatype Atom = Atom(c: char, quoted: bool)

  predicate IsWildcard(c: char) {
    c == '%' || c == '_'
  }

  predicate IsSpecial(c: char) {
    IsWildcard(c) || c == '\\'
  }

  function AtomText(a: Atom): string {
    if a.quoted then ['\\', a.c] else [a.c]
  }

  function PatternOf(atoms: seq<Atom>): string {
    if atoms == [] then [] else AtomText(atoms[0]) + PatternOf(atoms[1..])
  }

  /** The text that a pattern is meant to find. */
  function Characters(atoms: seq<Atom>): string {
    if atoms == [] then [] else [atoms[0].c] + Characters(atoms[1..])
  }

  /** The character stands for itself. */
  predicate IsClean(a: Atom) {
    a.quoted || !IsSpecial(a.c)
  }

  predicate AllClean(atoms: seq<Atom>) {
    forall i :: 0 <= i < |atoms| ==> IsClean(atoms[i])
  }

  /** Only the two wildcards are ever quoted. */
  predicate QuotesWildcards(atoms: seq<Atom>) {
    forall i :: 0 <= i < |atoms| && atoms[i].quoted ==> IsWildcard(atoms[i].c)
  }

  /** A clean character at the start of a pattern takes itself. */
  lemma CleanFirst(s: string, a: Atom, rest: string)
    requires IsClean(a)
    ensures LikeMatches(s, AtomText(a) + rest) <==> s != [] && s[0] == a.c && LikeMatches(s[1..], rest)
  {
    var p := AtomText(a) + rest;
    if a.quoted {
      assert p[0] == '\\' && p[1] == a.c && p[2..] == rest;
    } else {
      assert p[0] == a.c && p[1..] == rest;
    }
  }

  lemma PrefixFirst(s: string, c: char, rest: string)
    ensures [c] + rest <= s <==> s != [] && s[0] == c && rest <= s[1..]
  {
    if s != [] {
      assert s == [s[0]] + s[1..];
    }
  }

  /** A clean pattern followed by `%` matches the texts that start with its characters. */
  lemma {:induction false} CleanMatchesPrefix(s: string, atoms: seq<Atom>)
    requires AllClean(atoms)
    ensures LikeMatches(s, PatternOf(atoms) + "%") <==> Characters(atoms) <= s
  {
    if atoms == [] {
      PercentMatchesAnything(s);
      assert PatternOf(atoms) + "%" == "%";
    } else {
      var rest := PatternOf(atoms[1..]) + "%";
      assert PatternOf(atoms) + "%" == AtomText(atoms[0]) + rest;
      CleanFirst(s, atoms[0], rest);
      PrefixFirst(s, atoms[0].c, Characters(atoms[1..]));
      if s != [] {
        CleanMatchesPrefix(s[1..], atoms[1..]);
      }
    }
  }

  /** A text that the pattern matches, with its wildcards left as short as they can be. */
  function ShortestMatch(atoms: seq<Atom>): string
    decreases |atoms|
  {
    if atoms == [] then []
    else if atoms[0].quoted then [atoms[0].c] + ShortestMatch(atoms[1..])
    else if atoms[0].c == '%' then ShortestMatch(atoms[1..])
    else if atoms[0].c == '_' then "x" + ShortestMatch(atoms[1..])
    else if atoms[0].c != '\\' then [atoms[0].c] + ShortestMatch(atoms[1..])
    else if |atoms| == 1 then "%"
    else if !atoms[1].quoted then [atoms[1].c] + ShortestMatch(atoms[2..])
    else if atoms[1].c == '_' then "\\x" + ShortestMatch(atoms[2..])
    else "\\" + ShortestMatch(atoms[2..])
  }

  lemma SkippedRun(s: string, pattern: string)
    requires LikeMatches(s, pattern)
    ensures LikeMatches(s, "%" + pattern)
  {
    assert ("%" + pattern)[1..] == pattern;
  }

  lemma QuotedMatches(c: char, s: string, pattern: string)
    requires LikeMatches(s, pattern)
    ensures LikeMatches([c] + s, ['\\', c] + pattern)
  {
    assert (['\\', c] + pattern)[2..] == pattern && ([c] + s)[1..] == s;
  }

  lemma AnyMatches(c: char, s: string, pattern: string)
    requires LikeMatches(s, pattern)
    ensures LikeMatches([c] + s, "_" + pattern)
    ensures !IsSpecial(c) ==> LikeMatches([c] + s, [c] + pattern)
  {
    assert ("_" + pattern)[1..] == pattern && ([c] + pattern)[1..] == pattern && ([c] + s)[1..] == s;
  }

  lemma {:induction false} ShortestMatchMatches(atoms: seq<Atom>)
    requires QuotesWildcards(atoms)
    ensures LikeMatches(ShortestMatch(atoms), PatternOf(atoms) + "%")
    decreases |atoms|
  {
    var p := PatternOf(atoms) + "%";
    if atoms == [] {
      PercentMatchesAnything([]);
      assert p == "%";
    } else {
      var a := atoms[0];
      if !a.quoted && a.c == '\\' {
        BackslashMatches(atoms);
      } else {
        var w, rest := ShortestMatch(atoms[1..]), PatternOf(atoms[1..]) + "%";
        ShortestMatchMatches(atoms[1..]);
        assert p == AtomText(a) + rest;
        if a.quoted {
          QuotedMatches(a.c, w, rest);
        } else if a.c == '%' {
          SkippedRun(w, rest);
        } else {
          AnyMatches(if a.c == '_' then 'x' else a.c, w, rest);
        }
      }
    }
  }

  lemma BackslashFirst(atoms: seq<Atom>)
    requires |atoms| > 1 && atoms[0] == Atom('\\', false)
    ensures PatternOf(atoms) + "%" == ['\\'] + (AtomText(atoms[1]) + (PatternOf(atoms[2..]) + "%"))
  {
    assert atoms[1..][1..] == atoms[2..];
    assert PatternOf(atoms[1..]) == AtomText(atoms[1]) + PatternOf(atoms[2..]);
  }

  lemma LoneBackslash()
    ensures PatternOf([Atom('\\', false)]) + "%" == ['\\', '%']
    ensures LikeMatches("%", ['\\', '%'])
  {
    var lone := [Atom('\\', false)];
    assert lone[1..] == [] && PatternOf(lone[1..]) == [];
    QuotedMatches('%', "", "");
    assert "%" == ['%'] + "" && ['\\', '%'] + "" == ['\\', '%'];
  }

  /** A bare backslash before a quoted wildcard quotes the backslash of the latter. */
  lemma BackslashQuotesBackslash(c: char, w: string, rest: string)
    requires IsWildcard(c) && LikeMatches(w, rest)
    ensures LikeMatches((if c == '_' then "\\x" else "\\") + w, ['\\'] + (['\\', c] + rest))
  {
    assert ['\\'] + (['\\', c] + rest) == ['\\', '\\'] + ([c] + rest);
    if c == '_' {
      AnyMatches('x', w, rest);
      QuotedMatches('\\', "x" + w, "_" + rest);
      assert "\\x" + w == ['\\'] + ("x" + w);
    } else {
      SkippedRun(w, rest);
      QuotedMatches('\\', w, "%" + rest);
    }
  }

  /** A bare backslash quotes the character after it, be it another quoting backslash or the final `%`. */
  lemma {:induction false} BackslashMatches(atoms: seq<Atom>)
    requires QuotesWildcards(atoms) && atoms != [] && atoms[0] == Atom('\\', false)
    ensures LikeMatches(ShortestMatch(atoms), PatternOf(atoms) + "%")
    decreases |atoms|, 0
  {
    if |atoms| == 1 {
      assert atoms == [Atom('\\', false)];
      LoneBackslash();
    } else {
      var d, w, rest := atoms[1], ShortestMatch(atoms[2..]), PatternOf(atoms[2..]) + "%";
      ShortestMatchMatches(atoms[2..]);
      BackslashFirst(atoms);
      if !d.quoted {
        QuotedMatches(d.c, w, rest);
        assert ['\\'] + (AtomText(d) + rest) == ['\\', d.c] + rest;
      } else {
        BackslashQuotesBackslash(d.c, w, rest);
      }
    }
  }

  lemma {:induction false} ShortestMatchDiffers(atoms: seq<Atom>)
    requires QuotesWildcards(atoms)
    ensures |ShortestMatch(atoms)| <= |atoms| == |Characters(atoms)|
    ensures !AllClean(atoms) ==> ShortestMatch(atoms) != Characters(atoms)
    decreases |atoms|
  {
    if atoms != [] {
      var a, rest := atoms[0], atoms[1..];
      assert Characters(atoms)[0] == a.c && Characters(atoms)[1..] == Characters(rest);
      ShortestMatchDiffers(rest);
      if IsClean(a) {
        assert ShortestMatch(atoms)[1..] == ShortestMatch(rest);
        assert AllClean(rest) ==> AllClean(atoms);
      } else if a.c == '\\' && |atoms| > 1 {
        ShortestMatchDiffers(atoms[2..]);
        if atoms[1].quoted && atoms[1].c == '_' {
          assert ShortestMatch(atoms)[1] == 'x' && Characters(atoms)[1] == Characters(rest)[0] == '_';
        }
      } else if a.c == '_' {
        assert ShortestMatch(atoms)[0] == 'x';
      }
    }
  }

  lemma TooShortToContain(s: string, part: string)
    requires |s| <= |part| && s != part
    ensures !Contains(s, part)
  {
    assert s[0..] == s;
  }

  function SearchOf(atoms: seq<Atom>): string {
    "%" + (PatternOf(atoms) + "%")
  }

  lemma CleanMeansSubstring(s: string, atoms: seq<Atom>)
    requires AllClean(atoms)
    ensures LikeMatches(s, SearchOf(atoms)) <==> Contains(s, Characters(atoms))
  {
    PercentSkipsPrefix(s, PatternOf(atoms) + "%");
    forall i | 0 <= i <= |s| ensures LikeMatches(s[i..], PatternOf(atoms) + "%") <==> Characters(atoms) <= s[i..] {
      CleanMatchesPrefix(s[i..], atoms);
    }
  }

  /** A text that an unclean pattern finds although it does not contain the characters. */
  lemma UncleanMisleads(atoms: seq<Atom>)
    requires QuotesWildcards(atoms) && !AllClean(atoms)
    ensures LikeMatches(ShortestMatch(atoms), SearchOf(atoms)) && !Contains(ShortestMatch(atoms), Characters(atoms))
  {
    var w := ShortestMatch(atoms);
    ShortestMatchMatches(atoms);
    ShortestMatchDiffers(atoms);
    assert w[0..] == w;
    PercentSkipsPrefix(w, PatternOf(atoms) + "%");
    TooShortToContain(w, Characters(atoms));
  }

  // ── The search ─────────────────────────────────────────────────────────────

  function NameAtoms(name: string): seq<Atom> {
    if name == [] then [] else [Atom(name[0], IsWildcard(name[0]))] + NameAtoms(name[1..])
  }

  lemma {:induction false} NameIsAtoms(name: string)
    ensures PatternOf(NameAtoms(name)) == FlatMap(name, EscapedChar) && Characters(NameAtoms(name)) == name
    ensures QuotesWildcards(NameAtoms(name)) && (AllClean(NameAtoms(name)) <==> '\\' !in name)
  {
    if name != [] {
      NameIsAtoms(name[1..]);
      var atoms := NameAtoms(name);
      assert name == [name[0]] + name[1..] && atoms[1..] == NameAtoms(name[1..]);
      assert AtomText(atoms[0]) == EscapedChar(name[0]);
      assert AllClean(atoms) <==> IsClean(atoms[0]) && AllClean(atoms[1..]);
    }
  }

  lemma PatternIsSearch(name: string)
    ensures SearchPattern(name) == SearchOf(NameAtoms(name))
  {
    EscapeIsPerCharacter(name);
    NameIsAtoms(name);
  }

  lemma SearchMeansSubstring(s: string, name: string)
    requires '\\' !in name
    ensures LikeMatches(s, SearchPattern(name)) <==> Contains(s, name)
  {
    PatternIsSearch(name);
    NameIsAtoms(name);
    CleanMeansSubstring(s, NameAtoms(name));
  }

  /**
   The search finds exactly the names that contain the searched text if and only if the searched
   text has no backslash, which the server does not escape.
   */
  lemma SearchIsSubstringIffNoBackslash(name: string)
    ensures (forall s :: LikeMatches(s, SearchPattern(name)) <==> Contains(s, name)) <==> '\\' !in name
  {
    if '\\' !in name {
      forall s ensures LikeMatches(s, SearchPattern(name)) <==> Contains(s, name) {
        SearchMeansSubstring(s, name);
      }
    } else {
      var w := ShortestMatch(NameAtoms(name));
      PatternIsSearch(name);
      NameIsAtoms(name);
      UncleanMisleads(NameAtoms(name));
      assert LikeMatches(w, SearchPattern(name)) && !Contains(w, name);
    }
  }

  // ── Folding ────────────────────────────────────────────────────────────────

  /** A case and accent folding (`unaccent(lower(...))`) that leaves the special characters alone. */
  ghost predicate KeepsSpecials(fold: char -> string) {
    forall c :: IsSpecial(c) ==> fold(c) == [c]
  }

  function Unquoted(s: string): seq<Atom> {
    if s == [] then [] else [Atom(s[0], false)] + Unquoted(s[1..])
  }

  /** The folded pattern: quoted wildcards stay, and whatever else a character folds into is bare. */
  function FoldedAtoms(name: string, fold: char -> string): seq<Atom> {
    if name == [] then []
    else (if IsWildcard(name[0]) then [Atom(name[0], true)] else Unquoted(fold(name[0]))) + FoldedAtoms(name[1..], fold)
  }

  /** The character is a quoted wildcard, or folds into ordinary characters only. */
  predicate FoldsClean(c: char, fold: char -> string) {
    IsWildcard(c) || forall d :: d in fold(c) ==> !IsSpecial(d)
  }

  lemma {:induction false} UnquotedAtoms(s: string)
    ensures PatternOf(Unquoted(s)) == s && Characters(Unquoted(s)) == s && QuotesWildcards(Unquoted(s))
    ensures AllClean(Unquoted(s)) <==> forall d :: d in s ==> !IsSpecial(d)
  {
    if s != [] {
      UnquotedAtoms(s[1..]);
      var atoms := Unquoted(s);
      assert s == [s[0]] + s[1..] && atoms[1..] == Unquoted(s[1..]);
      assert AllClean(atoms) <==> IsClean(atoms[0]) && AllClean(atoms[1..]);
    }
  }

  lemma {:induction false} PatternConcat(a: seq<Atom>, b: seq<Atom>)
    ensures PatternOf(a + b) == PatternOf(a) + PatternOf(b)
  {
    if a == [] {
      assert a + b == b;
    } else {
      assert (a + b)[1..] == a[1..] + b;
      PatternConcat(a[1..], b);
      ConcatAssociative(AtomText(a[0]), PatternOf(a[1..]), PatternOf(b));
    }
  }

  lemma {:induction false} CharactersConcat(a: seq<Atom>, b: seq<Atom>)
    ensures Characters(a + b) == Characters(a) + Characters(b)
  {
    if a == [] {
      assert a + b == b;
    } else {
      assert (a + b)[1..] == a[1..] + b;
      CharactersConcat(a[1..], b);
      ConcatAssociative([a[0].c], Characters(a[1..]), Characters(b));
    }
  }

  lemma CleanConcat(a: seq<Atom>, b: seq<Atom>)
    ensures QuotesWildcards(a + b) <==> QuotesWildcards(a) && QuotesWildcards(b)
    ensures AllClean(a + b) <==> AllClean(a) && AllClean(b)
  {
    assert forall i :: 0 <= i < |a| ==> (a + b)[i] == a[i];
    assert forall i :: 0 <= i < |b| ==> (a + b)[|a| + i] == b[i];
  }

  lemma {:induction false} FoldedIsAtoms(name: string, fold: char -> string)
    requires KeepsSpecials(fold)
    ensures PatternOf(FoldedAtoms(name, fold)) == FlatMap(FlatMap(name, EscapedChar), fold)
    ensures Characters(FoldedAtoms(name, fold)) == FlatMap(name, fold)
    ensures QuotesWildcards(FoldedAtoms(name, fold))
    ensures AllClean(FoldedAtoms(name, fold)) <==> forall c :: c in name ==> FoldsClean(c, fold)
  {
    if name != [] {
      var c, rest := name[0], name[1..];
      var first := if IsWildcard(c) then [Atom(c, true)] else Unquoted(fold(c));
      FoldedIsAtoms(rest, fold);
      PatternConcat(first, FoldedAtoms(rest, fold));
      CharactersConcat(first, FoldedAtoms(rest, fold));
      CleanConcat(first, FoldedAtoms(rest, fold));
      FlatMapConcat(EscapedChar(c), FlatMap(rest, EscapedChar), fold);
      OneFolded(c, first, fold);
      assert name == [c] + rest;
    }
  }

  lemma OneFolded(c: char, first: seq<Atom>, fold: char -> string)
    requires KeepsSpecials(fold) && first == if IsWildcard(c) then [Atom(c, true)] else Unquoted(fold(c))
    ensures PatternOf(first) == FlatMap(EscapedChar(c), fold) && Characters(first) == fold(c)
    ensures QuotesWildcards(first) && (AllClean(first) <==> FoldsClean(c, fold))
  {
    if IsWildcard(c) {
      assert IsSpecial(c) && IsSpecial('\\');
      assert first[1..] == [] && ['\\', c][1..] == [c] && [c][1..] == [];
      assert EscapedChar(c) == ['\\', c];
      assert FlatMap([c], fold) == fold(c) + [] == [c];
    } else {
      UnquotedAtoms(fold(c));
      assert EscapedChar(c) == [c] && [c][1..] == [];
      assert FlatMap([c], fold) == fold(c) + [] == fold(c);
    }
  }

  lemma FoldedPattern(name: string, fold: char -> string)
    requires KeepsSpecials(fold)
    ensures FlatMap(SearchPattern(name), fold) == SearchOf(FoldedAtoms(name, fold))
  {
    EscapeIsPerCharacter(name);
    FoldedIsAtoms(name, fold);
    FlatMapConcat("%" + EscapeWildcards(name), "%", fold);
    FlatMapConcat("%", EscapeWildcards(name), fold);
    assert IsSpecial('%') && fold('%') == ['%'] && "%"[1..] == [];
    assert FlatMap("%", fold) == "%";
  }

  /** The query folds the stored name and the whole pattern; it still means folded substring. */
  lemma FoldedSearchMeansSubstring(stored: string, name: string, fold: char -> string)
    requires KeepsSpecials(fold) && forall c :: c in name ==> FoldsClean(c, fold)
    ensures LikeMatches(FlatMap(stored, fold), FlatMap(SearchPattern(name), fold))
      <==> Contains(FlatMap(stored, fold), FlatMap(name, fold))
  {
    FoldedPattern(name, fold);
    FoldedIsAtoms(name, fold);
    CleanMeansSubstring(FlatMap(stored, fold), FoldedAtoms(name, fold));
  }

  /** Folding a second time changes nothing, and plain lower-case letters stay. */
  ghost predicate FoldsOnce(fold: char -> string) {
    fold('x') == ['x'] && forall c, d :: d in fold(c) ==> fold(d) == [d]
  }

  lemma {:induction false} ShortestMatchCharacters(atoms: seq<Atom>)
    ensures forall c :: c in ShortestMatch(atoms) ==> c in Characters(atoms) || c == '%' || c == '\\' || c == 'x'
    decreases |atoms|
  {
    if atoms != [] {
      ShortestMatchCharacters(atoms[1..]);
      if |atoms| > 1 {
        ShortestMatchCharacters(atoms[2..]);
        assert atoms[1..][1..] == atoms[2..];
      }
    }
  }

  lemma {:induction false} FoldedStays(s: string, fold: char -> string)
    requires forall c :: c in s ==> fold(c) == [c]
    ensures FlatMap(s, fold) == s
  {
    if s != [] {
      FoldedStays(s[1..], fold);
      assert s[0] in s && s == [s[0]] + s[1..];
    }
  }

  lemma {:induction false} FoldedCharacters(name: string, fold: char -> string)
    requires FoldsOnce(fold)
    ensures forall c :: c in FlatMap(name, fold) ==> fold(c) == [c]
  {
    if name != [] {
      FoldedCharacters(name[1..], fold);
    }
  }

  /**
   Over all stored names the folded search finds exactly those whose folding contains the folded
   searched name, if and only if no character of the searched name is or folds into a special
   character that nothing quotes: a backslash, or one that becomes a wildcard or a backslash.
   */
  lemma FoldedSearchIffClean(name: string, fold: char -> string)
    requires KeepsSpecials(fold) && FoldsOnce(fold)
    ensures (forall stored :: LikeMatches(FlatMap(stored, fold), FlatMap(SearchPattern(name), fold))
                         <==> Contains(FlatMap(stored, fold), FlatMap(name, fold)))
      <==> forall c :: c in name ==> FoldsClean(c, fold)
  {
    if forall c :: c in name ==> FoldsClean(c, fold) {
      forall stored ensures LikeMatches(FlatMap(stored, fold), FlatMap(SearchPattern(name), fold))
                       <==> Contains(FlatMap(stored, fold), FlatMap(name, fold))
      {
        FoldedSearchMeansSubstring(stored, name, fold);
      }
    } else {
      var atoms := FoldedAtoms(name, fold);
      var w := ShortestMatch(atoms);
      FoldedPattern(name, fold);
      FoldedIsAtoms(name, fold);
      UncleanMisleads(atoms);
      ShortestMatchCharacters(atoms);
      FoldedCharacters(name, fold);
      assert IsSpecial('%') && IsSpecial('\\');
      FoldedStays(w, fold);
      assert LikeMatches(FlatMap(w, fold), FlatMap(SearchPattern(name), fold))
          && !Contains(FlatMap(w, fold), FlatMap(name, fold));
    }
  }

  /** For foldings that make no special characters of others, the condition is about backslashes only. */
  lemma CleanIffNoBackslash(name: string, fold: char -> string)
    requires KeepsSpecials(fold) && forall c :: !IsSpecial(c) ==> FoldsClean(c, fold)
    ensures (forall c :: c in name ==> FoldsClean(c, fold)) <==> '\\' !in name
  {
    assert IsSpecial('\\') && fold('\\') == ['\\'] && '\\' in fold('\\');
    assert !FoldsClean('\\', fold);
  }
}
