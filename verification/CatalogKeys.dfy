/**
 Keys of series and collections: accents are folded, every other character becomes a separator,
 one pass merges pairs of separators, and the ends are trimmed. Lower-casing is already applied.
 */
module CatalogKeys {
  import opened Options
  import opened Sequences
  import opened Text

  /** ASCII letters and digits, and whatever `other` accepts beyond ASCII. */
  predicate IsAlphanumeric(c: char, other: char -> bool) {
    || 'a' <= c <= 'z' || 'A' <= c <= 'Z' || '0' <= c <= '9'
    || (c > '\U{007F}' && other(c))
  }

  function KeyChar(c: char, other: char -> bool): char {
    if c in "àáâãä" then 'a'
    else if c in "èéêë" then 'e'
    else if c in "ìíîï" then 'i'
    else if c in "òóôõö" then 'o'
    else if c in "ùúûü" then 'u'
    else if c == 'ç' then 'c'
    else if c == 'ñ' then 'n'
    else if IsAlphanumeric(c, other) then c
    else '_'
  }

  /** The plain letter of an accented one, by code point. */
  function PlainLetter(c: char): Option<char> {
    if '\U{00E0}' <= c <= '\U{00E4}' then Some('a')
    else if '\U{00E8}' <= c <= '\U{00EB}' then Some('e')
    else if '\U{00EC}' <= c <= '\U{00EF}' then Some('i')
    else if '\U{00F2}' <= c <= '\U{00F6}' then Some('o')
    else if '\U{00F9}' <= c <= '\U{00FC}' then Some('u')
    else if c == '\U{00E7}' then Some('c')
    else if c == '\U{00F1}' then Some('n')
    else None
  }

  /** An accented letter becomes the plain one, other letters and digits stay, all else separates. */
  lemma KeyCharByCodePoint(c: char, other: char -> bool)
    ensures PlainLetter(c).Some? ==> KeyChar(c, other) == PlainLetter(c).value
    ensures PlainLetter(c).None? && (c in "0123456789" || 'a' <= c <= 'z' || 'A' <= c <= 'Z') ==> KeyChar(c, other) == c
    ensures PlainLetter(c).None? && c > '\U{007F}' ==> KeyChar(c, other) == if other(c) then c else '_'
    ensures c <= '\U{007F}' && c !in "0123456789" && !('a' <= c <= 'z') && !('A' <= c <= 'Z') ==> KeyChar(c, other) == '_'
  {
    AccentedLetters(c);
  }

  lemma AccentedLetters(c: char)
    ensures c in "àáâãä" <==> '\U{00E0}' <= c <= '\U{00E4}'
    ensures c in "èéêë" <==> '\U{00E8}' <= c <= '\U{00EB}'
    ensures c in "ìíîï" <==> '\U{00EC}' <= c <= '\U{00EF}'
    ensures c in "òóôõö" <==> '\U{00F2}' <= c <= '\U{00F6}'
    ensures c in "ùúûü" <==> '\U{00F9}' <= c <= '\U{00FC}'
  {
  }

  /** The characters of a key, before its separators are merged, stand at their places. */
  lemma {:induction false} KeyCharsAt(s: string, other: char -> bool)
    ensures |KeyChars(s, other)| == |s|
    ensures forall i :: 0 <= i < |s| ==> KeyChars(s, other)[i] == KeyChar(s[i], other)
  {
    if s != [] {
      KeyCharsAt(s[1..], other);
    }
  }

  function KeyChars(s: string, other: char -> bool): string {
    if s == [] then [] else [KeyChar(s[0], other)] + KeyChars(s[1..], other)
  }

  predicate IsSeparator(c: char) {
    c == '_'
  }

  function Collapse(s: string): string {
    Replace(s, "__", "_")
  }

  function NormalizeKey(s: string, other: char -> bool): string {
    TrimBy(Collapse(KeyChars(s, other)), IsSeparator)
  }

  // ── Words and gaps ─────────────────────────────────────────────────────────

  /** A word and the number of separators that follow it. */
  datatype Piece = Piece(word: string, gap: nat)

  function Separators(n: nat): (s: string)
    ensures |s| == n && forall c :: c in s ==> c == '_'
  {
    if n == 0 then [] else ['_'] + Separators(n - 1)
  }

  function Body(pieces: seq<Piece>): string {
    if pieces == [] then [] else pieces[0].word + Separators(pieces[0].gap) + Body(pieces[1..])
  }

  /** Words are non-empty and without separators; only the last one may have no gap after it. */
  predicate WellFormed(pieces: seq<Piece>) {
    && (forall i :: 0 <= i < |pieces| ==> pieces[i].word != [] && '_' !in pieces[i].word)
    && (forall i :: 0 <= i < |pieces| - 1 ==> pieces[i].gap > 0)
  }

  function LeadingSeparators(s: string): (n: nat)
    ensures n <= |s|
  {
    if s == [] || s[0] != '_' then 0 else 1 + LeadingSeparators(s[1..])
  }

  function WordLength(s: string): (n: nat)
    ensures n <= |s|
  {
    if s == [] || s[0] == '_' then 0 else 1 + WordLength(s[1..])
  }

  lemma {:induction false} CutAtSeparators(s: string)
    ensures var n := LeadingSeparators(s);
      s == Separators(n) + s[n..] && (n < |s| ==> s[n] != '_')
  {
    if s != [] && s[0] == '_' {
      var rest := s[1..];
      var n := LeadingSeparators(rest);
      CutAtSeparators(rest);
      ConcatAssociative(['_'], Separators(n), rest[n..]);
      assert s == ['_'] + rest && rest[n..] == s[n + 1..];
    }
  }

  lemma {:induction false} CutAtWord(s: string)
    ensures var n := WordLength(s);
      s == s[..n] + s[n..] && '_' !in s[..n] && (n < |s| ==> s[n] == '_')
  {
    if s != [] && s[0] != '_' {
      CutAtWord(s[1..]);
      var n := WordLength(s[1..]);
      assert s[..n + 1] == [s[0]] + s[1..][..n];
    }
  }

  /** The words and gaps of a text that does not start with a separator. */
  function Pieces(s: string): seq<Piece>
    requires s == [] || s[0] != '_'
    decreases |s|
  {
    if s == [] then []
    else
      var w := WordLength(s);
      var g := LeadingSeparators(s[w..]);
      CutAtSeparators(s[w..]);
      [Piece(s[..w], g)] + Pieces(s[w..][g..])
  }

  lemma PieceThenPieces(p: Piece, rest: seq<Piece>)
    requires p.word != [] && '_' !in p.word && WellFormed(rest) && (rest == [] || p.gap > 0)
    ensures WellFormed([p] + rest)
    ensures Body([p] + rest) == p.word + Separators(p.gap) + Body(rest)
  {
    assert ([p] + rest)[1..] == rest;
  }

  lemma FirstPiece(s: string)
    requires s != [] && s[0] != '_'
    ensures var w := WordLength(s);
      var g := LeadingSeparators(s[w..]);
      var rest := s[w..][g..];
      && w > 0 && '_' !in s[..w] && (rest == [] || (g > 0 && rest[0] != '_'))
      && s == s[..w] + Separators(g) + rest
  {
    var w := WordLength(s);
    CutAtWord(s);
    CutAtSeparators(s[w..]);
  }

  /** Cutting into words and gaps loses nothing. */
  lemma {:induction false} BodyOfPieces(s: string)
    requires s == [] || s[0] != '_'
    ensures WellFormed(Pieces(s)) && Body(Pieces(s)) == s
    decreases |s|
  {
    if s != [] {
      FirstPiece(s);
      var w := WordLength(s);
      var g := LeadingSeparators(s[w..]);
      var rest := s[w..][g..];
      BodyOfPieces(rest);
      PieceThenPieces(Piece(s[..w], g), Pieces(rest));
    }
  }

  /** The words and gaps between the leading separators and the end. */
  function KeyPieces(s: string): seq<Piece> {
    CutAtSeparators(s);
    Pieces(s[LeadingSeparators(s)..])
  }

  lemma {:induction false} SeparatorsThenWord(n: nat, rest: string)
    requires rest == [] || rest[0] != '_'
    ensures LeadingSeparators(Separators(n) + rest) == n
  {
    if n > 0 {
      assert (Separators(n) + rest)[1..] == Separators(n - 1) + rest;
      SeparatorsThenWord(n - 1, rest);
    } else {
      assert Separators(0) + rest == rest;
    }
  }

  lemma {:induction false} WordThenSeparator(word: string, rest: string)
    requires '_' !in word && (rest == [] || rest[0] == '_')
    ensures WordLength(word + rest) == |word|
  {
    if word == [] {
      assert word + rest == rest;
    } else {
      assert (word + rest)[1..] == word[1..] + rest;
      WordThenSeparator(word[1..], rest);
    }
  }

  lemma BodyStartsWithWord(pieces: seq<Piece>)
    requires WellFormed(pieces)
    ensures Body(pieces) == [] <==> pieces == []
    ensures Body(pieces) == [] || Body(pieces)[0] != '_'
  {
    if pieces != [] {
      assert Body(pieces)[0] == pieces[0].word[0];
      assert pieces[0].word[0] in pieces[0].word;
    }
  }

  /** A text is cut into words and gaps in one way only. */
  lemma {:induction false} PiecesOfBody(pieces: seq<Piece>)
    requires WellFormed(pieces)
    ensures Body(pieces) == [] || Body(pieces)[0] != '_'
    ensures Pieces(Body(pieces)) == pieces
  {
    BodyStartsWithWord(pieces);
    if pieces != [] {
      var s := Body(pieces);
      var p, rest := pieces[0], pieces[1..];
      BodyStartsWithWord(rest);
      var tail := Separators(p.gap) + Body(rest);
      assert s == p.word + tail;
      if p.gap == 0 {
        assert rest == [] && tail == [];
      }
      WordThenSeparator(p.word, tail);
      SeparatorsThenWord(p.gap, Body(rest));
      assert s[|p.word|..] == tail && tail[p.gap..] == Body(rest);
      PiecesOfBody(rest);
    }
  }

  // ── What one normalisation does to the gaps ────────────────────────────────

  /** Pairs of separators are merged: a run of `k` becomes a run of `k / 2`, rounded up. */
  function Half(k: nat): nat {
    (k + 1) / 2
  }

  function HalvedGaps(pieces: seq<Piece>): (halved: seq<Piece>)
    ensures |halved| == |pieces|
    ensures forall i :: 0 <= i < |pieces| ==> halved[i] == Piece(pieces[i].word, Half(pieces[i].gap))
  {
    if pieces == [] then [] else [Piece(pieces[0].word, Half(pieces[0].gap))] + HalvedGaps(pieces[1..])
  }

  function WithoutLastGap(pieces: seq<Piece>): seq<Piece> {
    if pieces == [] then [] else pieces[..|pieces| - 1] + [Piece(pieces[|pieces| - 1].word, 0)]
  }

  lemma {:induction false} CollapseSeparators(n: nat, rest: string)
    requires rest == [] || rest[0] != '_'
    ensures Collapse(Separators(n) + rest) == Separators(Half(n)) + Collapse(rest)
    decreases n
  {
    var s := Separators(n) + rest;
    if n == 0 {
      assert s == rest;
    } else if n == 1 {
      assert Separators(1) == "_" && s[1..] == rest;
      assert "__"[1] == '_' && (|s| > 1 ==> s[1] == rest[0] != '_');
      assert !("__" <= s);
      assert Half(1) == 1;
    } else {
      assert Separators(n) == "_" + ("_" + Separators(n - 2));
      assert "__" <= s && s[2..] == Separators(n - 2) + rest;
      CollapseSeparators(n - 2, rest);
      assert Half(n) == 1 + Half(n - 2);
      assert Separators(Half(n)) == "_" + Separators(Half(n - 2));
    }
  }

  lemma CollapsePiece(p: Piece, rest: string)
    requires '_' !in p.word && (rest == [] || rest[0] != '_')
    ensures Collapse(p.word + Separators(p.gap) + rest) == p.word + Separators(Half(p.gap)) + Collapse(rest)
  {
    assert p.word + Separators(p.gap) + rest == p.word + (Separators(p.gap) + rest);
    ReplaceSkips(p.word, Separators(p.gap) + rest, "__", "_");
    CollapseSeparators(p.gap, rest);
  }

  lemma {:induction false} CollapseHalvesGaps(pieces: seq<Piece>)
    requires WellFormed(pieces)
    ensures Collapse(Body(pieces)) == Body(HalvedGaps(pieces))
  {
    if pieces != [] {
      var p, rest := pieces[0], pieces[1..];
      BodyStartsWithWord(rest);
      CollapsePiece(p, Body(rest));
      CollapseHalvesGaps(rest);
      var first := Piece(p.word, Half(p.gap));
      assert HalvedGaps(pieces)[0] == first && HalvedGaps(pieces)[1..] == HalvedGaps(rest);
    }
  }

  lemma {:induction false} TrimLeadingSeparators(n: nat, rest: string)
    requires rest == [] || rest[0] != '_'
    ensures TrimStartBy(Separators(n) + rest, IsSeparator) == rest
  {
    if n > 0 {
      assert (Separators(n) + rest)[1..] == Separators(n - 1) + rest;
      TrimLeadingSeparators(n - 1, rest);
    } else {
      assert Separators(0) + rest == rest;
    }
  }

  lemma {:induction false} TrimTrailingSeparators(front: string, n: nat)
    requires front == [] || front[|front| - 1] != '_'
    ensures TrimEndBy(front + Separators(n), IsSeparator) == front
  {
    var s := front + Separators(n);
    if n > 0 {
      SeparatorsSnoc(n - 1);
      assert s[..|s| - 1] == front + Separators(n - 1);
      TrimTrailingSeparators(front, n - 1);
    } else {
      assert s == front;
    }
  }

  lemma {:induction false} SeparatorsSnoc(n: nat)
    ensures Separators(n + 1) == Separators(n) + "_"
  {
    if n > 0 {
      SeparatorsSnoc(n - 1);
    }
  }

  lemma {:induction false} BodyConcat(a: seq<Piece>, b: seq<Piece>)
    ensures Body(a + b) == Body(a) + Body(b)
  {
    if a == [] {
      assert a + b == b;
    } else {
      assert (a + b)[1..] == a[1..] + b;
      BodyConcat(a[1..], b);
    }
  }

  /** The body up to the last gap, and the body itself. */
  lemma LastGapLast(pieces: seq<Piece>)
    requires WellFormed(pieces) && pieces != []
    ensures var text := Body(WithoutLastGap(pieces));
      && Body(pieces) == text + Separators(pieces[|pieces| - 1].gap)
      && text != [] && text[|text| - 1] != '_'
  {
    var n := |pieces| - 1;
    var front, last := pieces[..n], pieces[n];
    var cut := [Piece(last.word, 0)];
    BodyConcat(front, [last]);
    BodyConcat(front, cut);
    assert pieces == front + [last] && WithoutLastGap(pieces) == front + cut;
    assert [last][1..] == [] && cut[1..] == [];
    assert Body([last]) == last.word + Separators(last.gap) && Body(cut) == last.word;
    assert last.word[|last.word| - 1] in last.word;
  }

  lemma TrimDropsLastGap(lead: nat, pieces: seq<Piece>)
    requires WellFormed(pieces)
    ensures TrimBy(Separators(lead) + Body(pieces), IsSeparator) == Body(WithoutLastGap(pieces))
  {
    BodyStartsWithWord(pieces);
    TrimLeadingSeparators(lead, Body(pieces));
    if pieces != [] {
      LastGapLast(pieces);
      TrimTrailingSeparators(Body(WithoutLastGap(pieces)), pieces[|pieces| - 1].gap);
    }
  }

  /** The words and gaps of a key, from those of its folded input. */
  function Settled(pieces: seq<Piece>): seq<Piece> {
    WithoutLastGap(HalvedGaps(pieces))
  }

  lemma SettledWellFormed(pieces: seq<Piece>)
    requires WellFormed(pieces)
    ensures WellFormed(HalvedGaps(pieces)) && WellFormed(Settled(pieces))
  {
  }

  lemma KeyOfPieces(m: string)
    ensures WellFormed(KeyPieces(m)) && WellFormed(Settled(KeyPieces(m)))
    ensures TrimBy(Collapse(m), IsSeparator) == Body(Settled(KeyPieces(m)))
  {
    var lead := LeadingSeparators(m);
    var pieces := KeyPieces(m);
    CutAtSeparators(m);
    BodyOfPieces(m[lead..]);
    BodyStartsWithWord(pieces);
    SettledWellFormed(pieces);
    CollapseSeparators(lead, Body(pieces));
    CollapseHalvesGaps(pieces);
    TrimDropsLastGap(Half(lead), HalvedGaps(pieces));
  }

  /**
   The effect of one normalisation on words and gaps: the words stay, interior gaps are halved
   (rounded up), leading and trailing separators go.
   */
  lemma NormalizeHalvesGaps(s: string, other: char -> bool)
    ensures var key := NormalizeKey(s, other);
      && (key == [] || (key[0] != '_' && key[|key| - 1] != '_'))
      && KeyPieces(key) == Settled(KeyPieces(KeyChars(s, other)))
  {
    var m := KeyChars(s, other);
    KeyOfPieces(m);
    var key := NormalizeKey(s, other);
    TrimByTrims(Collapse(m), IsSeparator);
    PiecesOfBody(Settled(KeyPieces(m)));
    assert key[LeadingSeparators(key)..] == key;
  }

  // ── Repeated normalisation ─────────────────────────────────────────────────

  lemma KeyCharSettles(c: char, other: char -> bool)
    ensures KeyChar(KeyChar(c, other), other) == KeyChar(c, other)
  {
  }

  /** Text made of characters that folding leaves alone. */
  predicate Folded(s: string, other: char -> bool) {
    forall i :: 0 <= i < |s| ==> KeyChar(s[i], other) == s[i]
  }

  lemma {:induction false} KeyCharsFold(s: string, other: char -> bool)
    ensures |KeyChars(s, other)| == |s| && Folded(KeyChars(s, other), other)
    ensures Folded(s, other) ==> KeyChars(s, other) == s
  {
    if s != [] {
      KeyCharSettles(s[0], other);
      KeyCharsFold(s[1..], other);
    }
  }

  lemma {:induction false} CollapseMembers(s: string, other: char -> bool)
    requires Folded(s, other)
    ensures Folded(Collapse(s), other)
    decreases |s|
  {
    if s == [] {
    } else if "__" <= s {
      CollapseMembers(s[2..], other);
    } else {
      CollapseMembers(s[1..], other);
    }
  }

  lemma NormalizedIsFolded(s: string, other: char -> bool)
    ensures Folded(NormalizeKey(s, other), other)
  {
    KeyCharsFold(s, other);
    var c := Collapse(KeyChars(s, other));
    CollapseMembers(KeyChars(s, other), other);
    TrimStartBounds(c, IsSeparator);
    var t := TrimStartBy(c, IsSeparator);
    TrimEndBounds(t, IsSeparator);
    assert Folded(t, other) by {
      forall i | 0 <= i < |t| ensures KeyChar(t[i], other) == t[i] {
        assert t[i] == c[|c| - |t| + i];
      }
    }
  }

  /** No gap between two words has three or more separators. */
  predicate ShortGaps(pieces: seq<Piece>) {
    forall i :: 0 <= i < |pieces| - 1 ==> pieces[i].gap <= 2
  }

  /**
   Normalising twice is normalising once exactly when no run of separators between two words of
   the input has three or more of them.
   */
  lemma NormalizeTwice(s: string, other: char -> bool)
    ensures NormalizeKey(NormalizeKey(s, other), other) == NormalizeKey(s, other)
      <==> ShortGaps(KeyPieces(KeyChars(s, other)))
  {
    var key := NormalizeKey(s, other);
    var pieces := KeyPieces(KeyChars(s, other));
    NormalizedIsFolded(s, other);
    KeyCharsFold(key, other);
    KeyOfPieces(KeyChars(s, other));
    KeyOfPieces(key);
    NormalizeHalvesGaps(s, other);
    assert key == Body(Settled(pieces));
    assert NormalizeKey(key, other) == Body(Settled(Settled(pieces)));
    PiecesOfBody(Settled(pieces));
    PiecesOfBody(Settled(Settled(pieces)));
    SettledTwice(pieces);
  }

  lemma SettledTwice(pieces: seq<Piece>)
    ensures Settled(Settled(pieces)) == Settled(pieces) <==> ShortGaps(pieces)
  {
    var once, twice := Settled(pieces), Settled(Settled(pieces));
    assert forall i :: 0 <= i < |pieces| - 1 ==>
        && once[i] == Piece(pieces[i].word, Half(pieces[i].gap))
        && twice[i] == Piece(pieces[i].word, Half(Half(pieces[i].gap)));
    assert forall i :: 0 <= i < |pieces| - 1 ==> (once[i] == twice[i] <==> pieces[i].gap <= 2);
    if ShortGaps(pieces) {
      assert once == twice;
    }
  }

  function Normalized(n: nat, s: string, other: char -> bool): string {
    if n == 0 then s else Normalized(n - 1, NormalizeKey(s, other), other)
  }

  lemma NormalizeShortensOrKeeps(s: string, other: char -> bool)
    requires Folded(s, other)
    ensures NormalizeKey(s, other) == s || |NormalizeKey(s, other)| < |s|
  {
    KeyCharsFold(s, other);
    ReplaceNoLonger(s, "__", "_");
    ReplaceShortens(s, "__", "_");
    TrimByTrims(Collapse(s), IsSeparator);
  }

  lemma {:induction false} FoldedKeysSettle(n: nat, s: string, other: char -> bool)
    requires Folded(s, other) && n >= |s|
    ensures NormalizeKey(Normalized(n, s, other), other) == Normalized(n, s, other)
  {
    NormalizeShortensOrKeeps(s, other);
    if NormalizeKey(s, other) == s {
      StaysNormalized(n, s, other);
    } else {
      NormalizedIsFolded(s, other);
      FoldedKeysSettle(n - 1, NormalizeKey(s, other), other);
    }
  }

  lemma {:induction false} StaysNormalized(n: nat, s: string, other: char -> bool)
    requires NormalizeKey(s, other) == s
    ensures Normalized(n, s, other) == s
  {
    if n > 0 {
      StaysNormalized(n - 1, s, other);
    }
  }

  /** Repeated normalisation reaches a fixed point, after at most one step more than the length. */
  lemma KeysSettle(n: nat, s: string, other: char -> bool)
    requires n > |s|
    ensures NormalizeKey(Normalized(n, s, other), other) == Normalized(n, s, other)
  {
    NormalizedIsFolded(s, other);
    NormalizeNoLonger(s, other);
    FoldedKeysSettle(n - 1, NormalizeKey(s, other), other);
  }

  lemma NormalizeNoLonger(s: string, other: char -> bool)
    ensures |NormalizeKey(s, other)| <= |s|
  {
    KeyCharsFold(s, other);
    ReplaceNoLonger(KeyChars(s, other), "__", "_");
    TrimByTrims(Collapse(KeyChars(s, other)), IsSeparator);
  }
}
