/**
 The migrated rows read directly off the legacy rows: what each column holds, said in terms of the
 legacy fields and of nothing that the migration computes on its way.
 */
module MigrationReading {
  import opened Options
  import opened Sequences
  import opened Text
  import opened LegacyModel
  import opened BiblioStage
  import opened LinkStage
  import opened CopyRules
  import opened CopyStage
  import opened LoanStage

  // ── Columns ────────────────────────────────────────────────────────────────

  /** A text column holds the text, or its beginning if only blanks are behind the column's width. */
  predicate ColumnRead(text: Option<string>, width: nat, stored: Option<string>) {
    match (text, stored)
    case (None, None) => true
    case (Some(t), Some(s)) =>
      s == (if |t| <= width then t else t[..width]) && forall i :: width <= i < |t| ==> t[i] == ' '
    case _ => false
  }

  lemma ColumnIsRead(text: Option<string>, width: nat)
    requires Fits(text, width)
    ensures ColumnRead(text, width, Cut(text, width))
  {
  }

  /** Only positive ids refer to something. */
  predicate ReferenceRead(id: Option<int>, stored: Option<int>) {
    stored == if id.Some? && id.value > 0 then id else None
  }

  /** The timestamp zero means none. */
  predicate DateRead(timestamp: Option<int>, stored: Option<int>) {
    stored == if timestamp.Some? && timestamp.value != 0 then timestamp else None
  }

  /** `t` is what is left of a text without white space at its ends, and something is left. */
  ghost predicate StripOf(t: string, s: Option<string>) {
    s.Some? && t != "" && IsTrimOf(t, s.value, IsPythonSpace)
  }

  lemma StripOfIff(t: string, s: Option<string>)
    ensures StripOf(t, s) <==> Stripped(s) == Some(t)
  {
    if s.Some? {
      TrimIff(t, s.value, IsPythonSpace);
    }
  }

  // ── Biblios ────────────────────────────────────────────────────────────────

  predicate IsbnCharacter(c: char) {
    c in "0123456789Xx"
  }

  function UpperX(c: char): char {
    if c == 'x' then 'X' else c
  }

  /** The digits and X of the identification, in order and upper-cased, if there are any. */
  predicate IsbnRead(identification: Option<string>, isbn: Option<string>) {
    var kept := if identification.Some? then Map(Filter(identification.value, IsbnCharacter), UpperX) else [];
    isbn == if kept == [] then None else Some(kept)
  }

  lemma {:induction false} CleanIsFilter(s: string)
    ensures CleanIsbn(s) == Map(Filter(s, IsbnCharacter), UpperX)
  {
    if s != [] {
      CleanIsFilter(s[1..]);
      OneCharacter(s[0]);
      var rest := Filter(s[1..], IsbnCharacter);
      if IsbnCharacter(s[0]) {
        assert ([s[0]] + rest)[1..] == rest;
        assert Map([s[0]] + rest, UpperX) == [UpperX(s[0])] + Map(rest, UpperX);
      }
    }
  }

  lemma OneCharacter(c: char)
    ensures IsbnCharacter(c) <==> '0' <= c <= '9' || c == 'X' || c == 'x'
  {
  }

  lemma {:induction false} CleanConcat(a: string, b: string)
    ensures CleanIsbn(a + b) == CleanIsbn(a) + CleanIsbn(b)
  {
    if a == [] {
      assert a + b == b;
    } else {
      assert (a + b)[1..] == a[1..] + b;
      CleanConcat(a[1..], b);
    }
  }

  lemma {:induction false} BlankHasNoIsbn(s: string)
    requires forall k :: 0 <= k < |s| ==> IsPythonSpace(s[k])
    ensures CleanIsbn(s) == []
  {
    if s != [] {
      BlankHasNoIsbn(s[1..]);
      assert IsPythonSpace(s[0]);
    }
  }

  lemma ThreeParts(a: string, t: string, b: string)
    requires (forall k :: 0 <= k < |a| ==> IsPythonSpace(a[k])) && (forall k :: 0 <= k < |b| ==> IsPythonSpace(b[k]))
    ensures CleanIsbn(a + (t + b)) == CleanIsbn(t)
  {
    BlankHasNoIsbn(a);
    BlankHasNoIsbn(b);
    CleanConcat(t, b);
    CleanConcat(a, t + b);
  }

  lemma StrippedIsbn(s: string)
    ensures CleanIsbn(Strip(s)) == CleanIsbn(s)
  {
    var a, b := TrimParts(s, IsPythonSpace);
    ThreeParts(a, Strip(s), b);
  }

  lemma IsbnIsRead(identification: Option<string>)
    ensures IsbnRead(identification, NormalIsbn(identification))
  {
    if identification.Some? {
      StrippedIsbn(identification.value);
      CleanIsFilter(identification.value);
    }
  }

  /** The first title that is not blank, without white space at its ends. */
  ghost predicate TitleRead(titles: seq<Option<string>>, title: Option<string>) {
    match title
    case None => forall k, t :: 0 <= k < |titles| ==> !StripOf(t, titles[k])
    case Some(t) => exists k :: FirstTitle(titles, k, t)
  }

  ghost predicate FirstTitle(titles: seq<Option<string>>, k: int, t: string) {
    0 <= k < |titles| && StripOf(t, titles[k]) && forall j, u :: 0 <= j < k ==> !StripOf(u, titles[j])
  }

  lemma {:induction false} TitleIsRead(titles: seq<Option<string>>)
    ensures TitleRead(titles, PrimaryTitle(titles))
  {
    if titles != [] {
      var rest := titles[1..];
      TitleIsRead(rest);
      forall u ensures StripOf(u, titles[0]) <==> Stripped(titles[0]) == Some(u) {
        StripOfIff(u, titles[0]);
      }
      if Stripped(titles[0]).Some? {
        assert FirstTitle(titles, 0, Stripped(titles[0]).value);
      } else if PrimaryTitle(titles).Some? {
        var t := PrimaryTitle(titles).value;
        var k :| FirstTitle(rest, k, t);
        forall j, u | 0 <= j < k + 1 ensures !StripOf(u, titles[j]) {
          assert j > 0 ==> titles[j] == rest[j - 1];
        }
        assert FirstTitle(titles, k + 1, t);
      } else {
        forall k, t | 0 <= k < |titles| ensures !StripOf(t, titles[k]) {
          assert k > 0 ==> titles[k] == rest[k - 1];
        }
      }
    }
  }

  /** A biblio is skipped when it has no title that is not blank and no digit or X in its identification. */
  lemma SkippedIsRead(b: LegacyBiblio)
    ensures IsSkipped(b) <==> TitleRead(b.titles, None) && IsbnRead(b.identification, None)
  {
    TitleIsRead(b.titles);
    IsbnIsRead(b.identification);
    SkippedIffNothingToIdentify(b);
    if PrimaryTitle(b.titles).Some? {
      var k :| FirstTitle(b.titles, k, PrimaryTitle(b.titles).value);
    }
  }

  /** The table's name for a code, else the code itself; no code at all is "unknown". */
  predicate MediaTypeRead(table: map<string, string>, code: Option<string>, stored: string) {
    && (code.None? ==> stored == "unknown")
    && (code.Some? && code.value in table ==> ColumnRead(Some(table[code.value]), 30, Some(stored)))
    && (code == Some("") && code.value !in table ==> stored == "unknown")
    && (code.Some? && code.value != "" && code.value !in table ==> ColumnRead(code, 30, Some(stored)))
  }

  /** A row of `biblios`, column by column. */
  ghost predicate BiblioRead(row: LegacyBiblio, tables: CodeTables, b: NewBiblio) {
    && b.id == row.id
    && IsbnRead(row.identification, b.isbn)
    && TitleRead(row.titles, b.title)
    && MediaTypeRead(tables.mediaTypes, row.mediaType, b.mediaType)
    && ColumnRead(row.dewey, 100, b.dewey)
    && ColumnRead(row.publicationDate, 20, b.publicationDate)
    && ReferenceRead(row.sourceId, b.sourceId)
    && ReferenceRead(row.editionId, b.editionId)
  }

  lemma IsbnIsNotCut(identification: Option<string>)
    requires Fits(NormalIsbn(identification), 30)
    ensures Cut(NormalIsbn(identification), 30) == NormalIsbn(identification)
  {
    if identification.Some? {
      CleanHasNoBlank(Strip(identification.value));
      var isbn := CleanIsbn(Strip(identification.value));
      assert |isbn| > 30 ==> isbn[30] in isbn;
    }
  }

  lemma {:induction false} CleanHasNoBlank(s: string)
    ensures forall c :: c in CleanIsbn(s) ==> c != ' '
  {
    if s != [] {
      CleanHasNoBlank(s[1..]);
    }
  }

  lemma {:induction false} TitleIsNotCut(titles: seq<Option<string>>)
    requires Fits(PrimaryTitle(titles), 500)
    ensures Cut(PrimaryTitle(titles), 500) == PrimaryTitle(titles)
  {
    if titles != [] {
      if Stripped(titles[0]).Some? {
        StrippedFitsIff(titles[0], 500);
      } else {
        TitleIsNotCut(titles[1..]);
      }
    }
  }

  lemma MediaTypeIsRead(table: map<string, string>, code: Option<string>)
    requires Fits(Some(MediaTypeCode(table, code)), 30)
    ensures MediaTypeRead(table, code, Cut(Some(MediaTypeCode(table, code)), 30).value)
  {
    ColumnIsRead(Some(MediaTypeCode(table, code)), 30);
  }

  lemma BiblioIsRead(row: LegacyBiblio, tables: CodeTables)
    requires BiblioWidths(BiblioOf(row, tables))
    ensures BiblioRead(row, tables, StoredBiblio(BiblioOf(row, tables)))
  {
    IsbnIsRead(row.identification);
    IsbnIsNotCut(row.identification);
    TitleIsRead(row.titles);
    TitleIsNotCut(row.titles);
    MediaTypeIsRead(tables.mediaTypes, row.mediaType);
    ColumnIsRead(row.dewey, 100);
    ColumnIsRead(row.publicationDate, 20);
  }

  /** The table of biblios, row by row. */
  ghost predicate BibliosRead(rows: seq<LegacyBiblio>, n: nat, tables: CodeTables, biblios: map<int, NewBiblio>)
    requires n <= |rows|
  {
    forall i :: 0 <= i < n && !IsSkipped(rows[i]) ==>
      rows[i].id in biblios && BiblioRead(rows[i], tables, biblios[rows[i].id])
  }

  lemma BibliosAreRead(rows: seq<LegacyBiblio>, n: nat, tables: CodeTables, refs: References,
                       biblios: map<int, NewBiblio>)
    requires n <= |rows| && BiblioTable(rows, n, tables, biblios)
    requires forall i :: 0 <= i < n ==> !RejectedBiblio(rows[i], tables, refs)
    ensures BibliosRead(rows, n, tables, biblios)
  {
    forall i | 0 <= i < n && !IsSkipped(rows[i])
      ensures rows[i].id in biblios && BiblioRead(rows[i], tables, biblios[rows[i].id])
    {
      assert !RejectedBiblio(rows[i], tables, refs);
      BiblioIsRead(rows[i], tables);
    }
  }

  // ── Links ──────────────────────────────────────────────────────────────────

  /** If all series exist, every migrated biblio that names one is linked to it with its volume number. */
  lemma SeriesAreLinked(rows: seq<LegacyBiblio>, series: set<int>, table: map<(int, int), Option<int>>, b: LegacyBiblio)
    requires LinksStored(rows, SeriesLink, series, table)
    requires forall c :: c in rows && c.serieId.Some? && c.serieId.value > 0 ==> c.serieId.value in series
    requires b in rows && !IsSkipped(b) && b.serieId.Some? && b.serieId.value > 0
    ensures (b.id, b.serieId.value) in table && table[(b.id, b.serieId.value)] == b.serieVolume
  {
    LinkOfBiblio(rows, SeriesLink, series, b, Link(b.id, b.serieId.value, b.serieVolume));
  }

  /** Likewise for collections. */
  lemma CollectionsAreLinked(rows: seq<LegacyBiblio>, collections: set<int>, table: map<(int, int), Option<int>>,
                             b: LegacyBiblio)
    requires LinksStored(rows, CollectionLink, collections, table)
    requires forall c :: c in rows && c.collectionId.Some? && c.collectionId.value > 0 ==> c.collectionId.value in collections
    requires b in rows && !IsSkipped(b) && b.collectionId.Some? && b.collectionId.value > 0
    ensures (b.id, b.collectionId.value) in table && table[(b.id, b.collectionId.value)] == b.collectionVolume
  {
    LinkOfBiblio(rows, CollectionLink, collections, b, Link(b.id, b.collectionId.value, b.collectionVolume));
  }

  lemma LinkOfBiblio(rows: seq<LegacyBiblio>, link: LegacyBiblio -> Option<Link>, ids: set<int>, b: LegacyBiblio, l: Link)
    requires b in rows && link(b) == Some(l) && LinksOwnBiblio(link)
    requires forall c :: c in rows && link(c).Some? ==> link(c).value.otherId in ids
    ensures l in Surviving(FilterMap(rows, link), ValidLink(KeptIds(rows), ids))
  {
    FilterMapPreimage(rows, link);
    AllSurvive(FilterMap(rows, link), ValidLink(KeptIds(rows), ids));
  }

  // ── Authors ────────────────────────────────────────────────────────────────

  /** The places of the ids that refer to an author, from place `k` on. */
  function AuthorPlaces(ids: seq<Option<int>>, k: nat): seq<nat>
    requires k <= |ids|
    decreases |ids| - k
  {
    if k == |ids| then []
    else (if ids[k].Some? && ids[k].value > 0 then [k] else []) + AuthorPlaces(ids, k + 1)
  }

  lemma {:induction false} AuthorPlacesAre(ids: seq<Option<int>>, k: nat)
    requires k <= |ids|
    ensures forall i :: i in AuthorPlaces(ids, k) <==> k <= i < |ids| && ids[i].Some? && ids[i].value > 0
    ensures forall i, j :: 0 <= i < j < |AuthorPlaces(ids, k)| ==> AuthorPlaces(ids, k)[i] < AuthorPlaces(ids, k)[j]
    decreases |ids| - k
  {
    if k < |ids| {
      AuthorPlacesAre(ids, k + 1);
      var rest := AuthorPlaces(ids, k + 1);
      forall j | 0 <= j < |rest| ensures rest[j] > k {
        assert rest[j] in rest;
      }
    }
  }

  /** The author at a place of an array, with the function whose code is at the same place. */
  predicate AuthorRead(biblio: int, ids: seq<Option<int>>, codes: seq<string>, table: map<string, string>, place: nat,
                       position: nat, l: AuthorLink) {
    && l.biblioId == biblio && l.position == position
    && place < |ids| && ids[place] == Some(l.authorId)
    && l.function_ == if place < |codes| && codes[place] in table then Some(table[codes[place]]) else None
  }

  /** One link for each place, in order. */
  ghost predicate LinksAtPlaces(links: seq<AuthorLink>, places: seq<nat>, biblio: int, ids: seq<Option<int>>,
                                codes: seq<string>, table: map<string, string>, position: nat) {
    && |links| == |places|
    && forall i :: 0 <= i < |links| ==> AuthorRead(biblio, ids, codes, table, places[i], position + i, links[i])
  }

  lemma LinkAtFirst(l: AuthorLink, place: nat, links: seq<AuthorLink>, places: seq<nat>, biblio: int,
                    ids: seq<Option<int>>, codes: seq<string>, table: map<string, string>, position: nat)
    requires AuthorRead(biblio, ids, codes, table, place, position, l)
    requires LinksAtPlaces(links, places, biblio, ids, codes, table, position + 1)
    ensures LinksAtPlaces([l] + links, [place] + places, biblio, ids, codes, table, position)
  {
  }

  lemma {:induction false} ArrayIsRead(biblio: int, ids: seq<Option<int>>, table: map<string, string>, codes: seq<string>,
                                       k: nat, position: nat)
    requires k <= |ids|
    ensures LinksAtPlaces(ArrayLinks(biblio, ids[k..], table, codes, k, position), AuthorPlaces(ids, k), biblio, ids,
                          codes, table, position)
    decreases |ids| - k
  {
    if k < |ids| {
      assert ids[k..][0] == ids[k] && ids[k..][1..] == ids[k + 1..];
      match FkId(ids[k])
      case None =>
        ArrayIsRead(biblio, ids, table, codes, k + 1, position);
        assert AuthorPlaces(ids, k) == AuthorPlaces(ids, k + 1);
      case Some(id) =>
        ArrayIsRead(biblio, ids, table, codes, k + 1, position + 1);
        LinkAtFirst(AuthorLink(biblio, id, AuthorFunction(table, codes, k), position), k,
                    ArrayLinks(biblio, ids[k + 1..], table, codes, k + 1, position + 1), AuthorPlaces(ids, k + 1),
                    biblio, ids, codes, table, position);
    }
  }

  /** How many authors the first `a` arrays name. */
  function AuthorCount(authors: seq<LegacyAuthors>, a: nat): nat
    requires a <= |authors|
  {
    if a == 0 then 0 else AuthorCount(authors, a - 1) + |AuthorPlaces(authors[a - 1].ids, 0)|
  }

  /** The links of the arrays from the `a`-th on. */
  function LinksFrom(biblio: int, authors: seq<LegacyAuthors>, table: map<string, string>, a: nat): seq<AuthorLink>
    requires a <= |authors|
  {
    AuthorLinksFrom(biblio, authors[a..], table, AuthorCount(authors, a) + 1)
  }

  function Block(biblio: int, authors: seq<LegacyAuthors>, table: map<string, string>, a: nat): seq<AuthorLink>
    requires a < |authors|
  {
    ArrayLinks(biblio, authors[a].ids, table, FunctionCodes(authors[a].functions), 0, AuthorCount(authors, a) + 1)
  }

  lemma BlockIsRead(biblio: int, authors: seq<LegacyAuthors>, table: map<string, string>, a: nat)
    requires a < |authors|
    ensures LinksAtPlaces(Block(biblio, authors, table, a), AuthorPlaces(authors[a].ids, 0), biblio, authors[a].ids,
                          FunctionCodes(authors[a].functions), table, AuthorCount(authors, a) + 1)
  {
    assert authors[a].ids[0..] == authors[a].ids;
    ArrayIsRead(biblio, authors[a].ids, table, FunctionCodes(authors[a].functions), 0, AuthorCount(authors, a) + 1);
  }

  lemma SplitBlock(biblio: int, authors: seq<LegacyAuthors>, table: map<string, string>, a: nat)
    requires a < |authors|
    ensures LinksFrom(biblio, authors, table, a) == Block(biblio, authors, table, a) + LinksFrom(biblio, authors, table, a + 1)
    ensures |Block(biblio, authors, table, a)| == AuthorCount(authors, a + 1) - AuthorCount(authors, a)
  {
    BlockIsRead(biblio, authors, table, a);
    assert authors[a..][0] == authors[a] && authors[a..][1..] == authors[a + 1..];
  }

  lemma {:induction false} BlockAt(biblio: int, authors: seq<LegacyAuthors>, table: map<string, string>, a: nat, m: nat,
                                   i: nat)
    requires a <= m < |authors| && i < |Block(biblio, authors, table, m)|
    ensures var links, k := LinksFrom(biblio, authors, table, a), AuthorCount(authors, m) - AuthorCount(authors, a) + i;
      0 <= k < |links| && links[k] == Block(biblio, authors, table, m)[i]
    decreases |authors| - a
  {
    SplitBlock(biblio, authors, table, a);
    CountGrows(authors, a, m);
    if a < m {
      CountGrows(authors, a + 1, m);
      BlockAt(biblio, authors, table, a + 1, m, i);
    }
  }

  lemma {:induction false} CountGrows(authors: seq<LegacyAuthors>, a: nat, m: nat)
    requires a <= m <= |authors|
    ensures AuthorCount(authors, a) <= AuthorCount(authors, m)
  {
    if a < m {
      CountGrows(authors, a, m - 1);
    }
  }

  lemma {:induction false} LinksCounted(biblio: int, authors: seq<LegacyAuthors>, table: map<string, string>, a: nat)
    requires a <= |authors|
    ensures |LinksFrom(biblio, authors, table, a)| == AuthorCount(authors, |authors|) - AuthorCount(authors, a)
    decreases |authors| - a
  {
    if a < |authors| {
      SplitBlock(biblio, authors, table, a);
      LinksCounted(biblio, authors, table, a + 1);
    }
  }

  lemma AllLinks(b: LegacyBiblio, table: map<string, string>)
    ensures AuthorLinks(b, table) == LinksFrom(b.id, b.authors, table, 0)
  {
    assert b.authors[0..] == b.authors;
  }

  /**
   The author links of a biblio: one for each positive id of its arrays, in order, with the function
   whose code is at the id's place, numbered from one.
   */
  lemma AuthorsAreRead(b: LegacyBiblio, table: map<string, string>, m: nat, i: nat)
    requires m < |b.authors| && i < |AuthorPlaces(b.authors[m].ids, 0)|
    ensures var links, k := AuthorLinks(b, table), AuthorCount(b.authors, m) + i;
      && |links| == AuthorCount(b.authors, |b.authors|)
      && k < |links|
      && AuthorRead(b.id, b.authors[m].ids, FunctionCodes(b.authors[m].functions), table,
                    AuthorPlaces(b.authors[m].ids, 0)[i], k + 1, links[k])
  {
    AllLinks(b, table);
    LinksCounted(b.id, b.authors, table, 0);
    BlockIsRead(b.id, b.authors, table, m);
    BlockAt(b.id, b.authors, table, 0, m, i);
  }

  function StrippedPart(part: string): Option<string> {
    Stripped(Some(part))
  }

  lemma {:induction false} SplitIsJoined(s: string, sep: char)
    ensures Join(SplitOn(s, sep), [sep]) == s
    ensures forall part :: part in SplitOn(s, sep) ==> sep !in part
  {
    if s != [] {
      var rest := SplitOn(s[1..], sep);
      SplitIsJoined(s[1..], sep);
      if s[0] == sep {
        assert ([""] + rest)[1..] == rest;
        assert "" + [sep] + Join(rest, [sep]) == [s[0]] + s[1..] == s;
      } else {
        var parts := [[s[0]] + rest[0]] + rest[1..];
        assert parts[1..] == rest[1..];
        assert Join(parts, [sep]) == [s[0]] + Join(rest, [sep]);
        forall part | part in parts ensures sep !in part {
          assert part in rest[1..] ==> part in rest;
          assert rest[0] in rest;
        }
      }
    }
  }

  lemma {:induction false} NonBlankAreStripped(parts: seq<string>)
    ensures NonBlankParts(parts) == FilterMap(parts, StrippedPart)
  {
    if parts != [] {
      NonBlankAreStripped(parts[1..]);
    }
  }

  /** The codes are the parts between the commas, stripped, without the blank ones. */
  lemma FunctionCodesAreRead(functions: string)
    ensures exists parts ::
              && Join(parts, ",") == functions && (forall part :: part in parts ==> ',' !in part)
              && FunctionCodes(Some(functions)) == FilterMap(parts, StrippedPart)
    ensures FunctionCodes(None) == []
  {
    SplitIsJoined(functions, ',');
    NonBlankAreStripped(SplitOn(functions, ','));
    assert Join(SplitOn(functions, ','), ",") == functions;
    BlankPart();
  }

  lemma BlankPart()
    ensures FunctionCodes(None) == []
  {
    assert SplitOn("", ',') == [""] && [""][1..] == [];
    assert Strip("") == "";
  }

  // ── Copies ─────────────────────────────────────────────────────────────────

  /** The specimen is migrated, and its barcode is the text `t`. */
  ghost predicate CarriesText(row: LegacySpecimen, skipped: set<int>, t: string) {
    !(row.idItem.Some? && row.idItem.value in skipped) && StripOf(t, row.identification)
  }

  /** The barcode that a specimen keeps, unless an earlier migrated one carries it. */
  ghost predicate KeptRead(rows: seq<LegacySpecimen>, skipped: set<int>, i: nat, kept: Option<string>)
    requires i < |rows|
  {
    forall t :: kept == Some(t) <==>
      StripOf(t, rows[i].identification) && forall j :: 0 <= j < i ==> !CarriesText(rows[j], skipped, t)
  }

  /** One word, with nothing but white space around it. */
  ghost predicate OneWord(s: Option<string>) {
    exists t :: StripOf(t, s) && forall c :: c in t ==> !IsPythonSpace(c)
  }

  lemma OneWordIff(s: Option<string>)
    ensures OneWord(s) <==> IsToken(s)
  {
    if OneWord(s) {
      var t :| StripOf(t, s) && forall c :: c in t ==> !IsPythonSpace(c);
      StripOfIff(t, s);
    }
    if IsToken(s) {
      StripOfIff(Strip(s.value), s);
      assert StripOf(Strip(s.value), s);
    }
  }

  lemma KeptIsRead(rows: seq<LegacySpecimen>, skipped: set<int>, i: nat)
    requires i < |rows|
    ensures KeptRead(rows, skipped, i, KeptBarcode(rows, skipped, i))
  {
    var kept := KeptBarcode(rows, skipped, i);
    forall t ensures kept == Some(t) <==>
        StripOf(t, rows[i].identification) && forall j :: 0 <= j < i ==> !CarriesText(rows[j], skipped, t)
    {
      StripOfIff(t, rows[i].identification);
      forall j | 0 <= j < i ensures CarriesText(rows[j], skipped, t) <==> Carries(rows, skipped, j, t) {
        StripOfIff(t, rows[j].identification);
      }
      assert (forall j :: 0 <= j < i ==> !CarriesText(rows[j], skipped, t)) <==> FirstToCarry(rows, skipped, i, t);
    }
  }

  /** Barcode and call number, exchanged when only the call number is one word. */
  ghost predicate BarcodeRead(rows: seq<LegacySpecimen>, skipped: set<int>, i: nat, kept: Option<string>, item: NewItem)
    requires i < |rows|
  {
    && KeptRead(rows, skipped, i, kept)
    && if OneWord(rows[i].cote) && !OneWord(kept) then
         item.barcode.None? && ColumnRead(kept, 100, item.callNumber)
       else
         ColumnRead(kept, 100, item.barcode) && ColumnRead(rows[i].cote, 100, item.callNumber)
  }

  /** A row of `items`, column by column. */
  ghost predicate CopyRead(rows: seq<LegacySpecimen>, skipped: set<int>, i: nat, now: int, item: NewItem)
    requires i < |rows|
  {
    var row := rows[i];
    && item.id == row.id
    && ReferenceRead(row.idItem, item.biblioId)
    && ReferenceRead(row.sourceId, item.sourceId)
    && (item.borrowable <==> row.status != Some(110))
    && (row.archiveDate.Some? && row.archiveDate.value != 0 ==> item.archivedAt == row.archiveDate)
    && (row.archiveDate.None? || row.archiveDate.value == 0 ==>
          item.archivedAt == if row.isArchive == Some(1) then Some(now) else None)
    && exists kept :: BarcodeRead(rows, skipped, i, kept, item)
  }

  lemma CopyIsRead(rows: seq<LegacySpecimen>, skipped: set<int>, i: nat, now: int)
    requires i < |rows| && ItemWidths(CopyOf(rows, skipped, i, now))
    ensures CopyRead(rows, skipped, i, now, StoredItem(CopyOf(rows, skipped, i, now)))
  {
    var copy, kept := CopyOf(rows, skipped, i, now), KeptBarcode(rows, skipped, i);
    KeptIsRead(rows, skipped, i);
    OneWordIff(rows[i].cote);
    OneWordIff(kept);
    ColumnIsRead(copy.barcode, 100);
    ColumnIsRead(copy.callNumber, 100);
    assert BarcodeRead(rows, skipped, i, kept, StoredItem(copy));
  }

  /** The table of copies, row by row. */
  ghost predicate CopiesRead(rows: seq<LegacySpecimen>, n: nat, skipped: set<int>, now: int, items: map<int, NewItem>)
    requires n <= |rows|
  {
    forall i :: 0 <= i < n && !(rows[i].idItem.Some? && rows[i].idItem.value in skipped) ==>
      rows[i].id in items && CopyRead(rows, skipped, i, now, items[rows[i].id])
  }

  lemma CopiesAreRead(rows: seq<LegacySpecimen>, n: nat, skipped: set<int>, biblioIds: set<int>, sources: set<int>,
                      now: int, items: map<int, NewItem>)
    requires n <= |rows| && CopyTable(rows, n, skipped, now, items)
    requires NoneRejected(rows, skipped, biblioIds, sources, now, n)
    ensures CopiesRead(rows, n, skipped, now, items)
  {
    forall i | 0 <= i < n && !(rows[i].idItem.Some? && rows[i].idItem.value in skipped)
      ensures rows[i].id in items && CopyRead(rows, skipped, i, now, items[rows[i].id])
    {
      assert !RejectedSpecimen(rows, skipped, biblioIds, sources, now, i);
      CopyIsRead(rows, skipped, i, now);
    }
  }

  // ── Loans ──────────────────────────────────────────────────────────────────

  /** The borrow is of a migrated copy. */
  predicate OfMigrated(specimenId: Option<int>, migrated: set<int>) {
    specimenId.Some? && specimenId.value > 0 && specimenId.value in migrated
  }

  /** The loan was returned: it has a return date other than zero. */
  predicate WasReturned(b: LegacyBorrow) {
    b.returnedDate.Some? && b.returnedDate.value != 0
  }

  /** A row of `loans`, column by column. */
  predicate LoanRead(b: LegacyBorrow, loan: NewLoan) {
    loan.userId == b.userId && Some(loan.itemId) == b.specimenId && DateRead(b.date, loan.date) && loan.notes == b.notes
  }

  /** A row of `loans_archives` made of a returned borrow. */
  predicate ReturnedRead(b: LegacyBorrow, cities: map<int, Option<string>>, a: NewArchive) {
    && a.userId == Some(b.userId) && Some(a.itemId) == b.specimenId
    && DateRead(b.date, a.date) && a.returnedAt == b.returnedDate && a.notes == b.notes
    && ColumnRead(if b.userId in cities then cities[b.userId] else None, 255, a.city)
  }

  /** A row of `loans_archives` made of an archived borrow, which has no user. */
  predicate ArchiveRead(row: LegacyArchive, a: NewArchive) {
    && a.userId.None? && Some(a.itemId) == row.specimenId
    && DateRead(row.date, a.date) && DateRead(row.returnedDate, a.returnedAt) && a.notes == row.notes
    && ColumnRead(row.city, 255, a.city)
  }

  /** What is stored for a borrow. */
  predicate BorrowRead(b: LegacyBorrow, migrated: set<int>, cities: map<int, Option<string>>, loans: map<int, NewLoan>,
                       archives: map<int, NewArchive>) {
    OfMigrated(b.specimenId, migrated) ==>
      if WasReturned(b) then b.id in archives && ReturnedRead(b, cities, archives[b.id])
      else b.id in loans && LoanRead(b, loans[b.id])
  }

  lemma BorrowIsRead(b: LegacyBorrow, migrated: set<int>, cities: map<int, Option<string>>, loans: map<int, NewLoan>,
                     archives: map<int, NewArchive>)
    requires BorrowStored(b, migrated, cities, loans, archives) && !RejectedBorrow(b, migrated, cities)
    ensures BorrowRead(b, migrated, cities, loans, archives)
  {
    match DestinationOf(b, migrated)
    case Nowhere =>
    case Active(_) =>
    case Archived(_) => ColumnIsRead(CityOf(cities, b.userId), 255);
  }

  /** A loan that is not of a migrated copy is not stored. */
  lemma OnlyMigratedBorrows(b: LegacyBorrow, migrated: set<int>)
    ensures DestinationOf(b, migrated).Nowhere? <==> !OfMigrated(b.specimenId, migrated)
    ensures DestinationOf(b, migrated).Archived? ==> WasReturned(b)
    ensures DestinationOf(b, migrated).Active? ==> !WasReturned(b)
  {
  }

  lemma ArchivedIsRead(row: LegacyArchive, migrated: set<int>, before: map<int, NewArchive>, archives: map<int, NewArchive>)
    requires ArchiveStored(row, migrated, before, archives) && !RejectedArchive(row, migrated)
    ensures OfMigrated(row.specimenId, migrated) && row.id !in before ==>
              row.id in archives && ArchiveRead(row, archives[row.id])
  {
    if Fits(row.city, 255) {
      ColumnIsRead(row.city, 255);
    }
  }
}
