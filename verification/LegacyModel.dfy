/**
 The legacy catalogue's rows, the rows of the new schema, and the small conversions that the
 migration applies to single fields.
 */
module LegacyModel {
  import opened Options
  import opened Text

  // ── Legacy rows ────────────────────────────────────────────────────────────

  /** An author array with its comma-separated function codes. */
  datatype LegacyAuthors = LegacyAuthors(ids: seq<Option<int>>, functions: Option<string>)

  datatype LegacyBiblio = LegacyBiblio(
    id: int, mediaType: Option<string>, identification: Option<string>, titles: seq<Option<string>>,
    dewey: Option<string>, publicationDate: Option<string>, sourceId: Option<int>, editionId: Option<int>,
    serieId: Option<int>, serieVolume: Option<int>, collectionId: Option<int>, collectionVolume: Option<int>,
    authors: seq<LegacyAuthors>)

  datatype LegacySpecimen = LegacySpecimen(
    id: int, idItem: Option<int>, sourceId: Option<int>, identification: Option<string>, cote: Option<string>,
    status: Option<int>, isArchive: Option<int>, archiveDate: Option<int>)

  datatype LegacyBorrow = LegacyBorrow(
    id: int, userId: int, specimenId: Option<int>, date: Option<int>, returnedDate: Option<int>, notes: Option<string>)

  datatype LegacyArchive = LegacyArchive(
    id: int, specimenId: Option<int>, date: Option<int>, returnedDate: Option<int>, notes: Option<string>,
    city: Option<string>)

  // ── New rows ───────────────────────────────────────────────────────────────

  datatype NewBiblio = NewBiblio(
    id: int, mediaType: string, isbn: Option<string>, title: Option<string>, dewey: Option<string>,
    publicationDate: Option<string>, sourceId: Option<int>, editionId: Option<int>)

  datatype NewItem = NewItem(
    id: int, biblioId: Option<int>, sourceId: Option<int>, barcode: Option<string>, callNumber: Option<string>,
    borrowable: bool, archivedAt: Option<int>)

  datatype NewLoan = NewLoan(userId: int, itemId: int, date: Option<int>, notes: Option<string>)

  datatype NewArchive = NewArchive(
    userId: Option<int>, itemId: int, date: Option<int>, returnedAt: Option<int>, notes: Option<string>,
    city: Option<string>)

  /** A row of `biblio_series` or `biblio_collections`. */
  datatype Link = Link(biblioId: int, otherId: int, volume: Option<int>)

  datatype AuthorLink = AuthorLink(biblioId: int, authorId: int, function_: Option<string>, position: nat)

  /** The ids that earlier stages of the migration left in the target. */
  datatype References = References(
    editions: set<int>, sources: set<int>, series: set<int>, collections: set<int>, authors: set<int>)

  /** The lookup tables of the script for media types and author functions. */
  datatype CodeTables = CodeTables(mediaTypes: map<string, string>, functions: map<string, string>)

  /** Rows read, and committed, at a time. */
  const PAGE: nat := 1000

  /** The rows of the whole pages among the first `n`. */
  function WholePages(n: nat): (m: nat)
    ensures m <= n
  {
    n - n % 1000
  }

  lemma PageStart(offset: nat, n: nat)
    requires WholePages(offset) == offset && offset <= n < offset + PAGE
    ensures WholePages(n) == offset && WholePages(offset + PAGE) == offset + PAGE
  {
  }

  // ── Columns of limited width ───────────────────────────────────────────────

  /** A VARCHAR(width) column takes a text whose excess, if there is any, is blanks. */
  predicate Fits(text: Option<string>, width: nat) {
    text.Some? ==> forall i :: width <= i < |text.value| ==> text.value[i] == ' '
  }

  /** What the column then holds: blanks in excess are cut off. */
  function Cut(text: Option<string>, width: nat): Option<string> {
    if text.Some? && |text.value| > width then Some(text.value[..width]) else text
  }

  /** A stripped text has no blanks at its end, so it fits exactly when it is short enough, and is not cut. */
  lemma StrippedFitsIff(s: Option<string>, width: nat)
    requires Stripped(s).Some?
    ensures Fits(Stripped(s), width) <==> |Stripped(s).value| <= width
    ensures Fits(Stripped(s), width) ==> Cut(Stripped(s), width) == Stripped(s)
  {
    var t := Strip(s.value);
    TrimByTwice(s.value, IsPythonSpace);
    TrimByTrims(t, IsPythonSpace);
    assert t[|t| - 1] != ' ';
  }

  // ── Field conversions ──────────────────────────────────────────────────────

  /** `str.strip()` of Python. */
  function Strip(s: string): string {
    TrimBy(s, IsPythonSpace)
  }

  /** The stripped text, if anything is left of it. */
  function Stripped(s: Option<string>): Option<string> {
    if s.None? || Strip(s.value) == "" then None else Some(Strip(s.value))
  }

  /** `legacy_fk_id`: zero and negative ids meant "no reference". */
  function FkId(value: Option<int>): Option<int> {
    if value.None? || value.value <= 0 then None else value
  }

  /** `ts_to_datetime`, for integers that are valid timestamps. */
  function TsToDatetime(value: Option<int>): Option<int> {
    if value == Some(0) then None else value
  }

  predicate HasSpace(s: string) {
    exists c :: c in s && IsPythonSpace(c)
  }

  /** `legacy_field_looks_like_single_token`. */
  predicate IsToken(s: Option<string>) {
    s.Some? && Strip(s.value) != "" && !HasSpace(Strip(s.value))
  }

  /** `map_media_type`: codes that are not in the table are kept as they are. */
  function MediaTypeCode(table: map<string, string>, code: Option<string>): string {
    match code
    case None => "unknown"
    case Some(c) => if c in table then table[c] else if c != "" then c else "unknown"
  }

  predicate IsIsbnChar(c: char) {
    '0' <= c <= '9' || c == 'X' || c == 'x'
  }

  /** Keeps digits and X, upper-cased. */
  function CleanIsbn(s: string): string {
    if s == [] then []
    else (if !IsIsbnChar(s[0]) then [] else if s[0] == 'x' then "X" else [s[0]]) + CleanIsbn(s[1..])
  }

  function NormalIsbn(identification: Option<string>): Option<string> {
    if identification.None? || CleanIsbn(Strip(identification.value)) == "" then None
    else Some(CleanIsbn(Strip(identification.value)))
  }

  /** `legacy_biblio_primary_title`: the first title that is not blank, stripped. */
  function PrimaryTitle(titles: seq<Option<string>>): Option<string> {
    if titles == [] then None
    else if Stripped(titles[0]).Some? then Stripped(titles[0])
    else PrimaryTitle(titles[1..])
  }

  /** `legacy_biblio_missing_isbn_and_title`. */
  predicate IsSkipped(b: LegacyBiblio) {
    if PrimaryTitle(b.titles).Some? then false
    else if b.identification.None? then true
    else
      var s := Strip(b.identification.value);
      s == "" || CleanIsbn(s) == ""
  }

  /** A row is skipped exactly when the new row would have neither an ISBN nor a title. */
  lemma SkippedIffNothingToIdentify(b: LegacyBiblio)
    ensures IsSkipped(b) <==> NormalIsbn(b.identification).None? && PrimaryTitle(b.titles).None?
  {
  }

  // ── Author links ───────────────────────────────────────────────────────────

  /** `str.split(sep)`. */
  function SplitOn(s: string, sep: char): (parts: seq<string>)
    ensures parts != []
  {
    if s == [] then [""]
    else
      var rest := SplitOn(s[1..], sep);
      if s[0] == sep then [""] + rest else [[s[0]] + rest[0]] + rest[1..]
  }

  function NonBlankParts(parts: seq<string>): seq<string> {
    if parts == [] then []
    else (if Strip(parts[0]) == "" then [] else [Strip(parts[0])]) + NonBlankParts(parts[1..])
  }

  function FunctionCodes(functions: Option<string>): seq<string> {
    NonBlankParts(SplitOn(if functions.Some? then functions.value else "", ','))
  }

  /** `map_author_function`, over the lookup table. */
  function AuthorFunction(table: map<string, string>, codes: seq<string>, index: nat): Option<string> {
    if index < |codes| && codes[index] in table then Some(table[codes[index]]) else None
  }

  /** The links of one author array; ids that refer to nothing take no position. */
  function ArrayLinks(biblio: int, ids: seq<Option<int>>, table: map<string, string>, codes: seq<string>,
                      index: nat, position: nat): seq<AuthorLink>
  {
    if ids == [] then []
    else
      match FkId(ids[0])
      case None => ArrayLinks(biblio, ids[1..], table, codes, index + 1, position)
      case Some(id) =>
        [AuthorLink(biblio, id, AuthorFunction(table, codes, index), position)]
        + ArrayLinks(biblio, ids[1..], table, codes, index + 1, position + 1)
  }

  function AuthorLinksFrom(biblio: int, authors: seq<LegacyAuthors>, table: map<string, string>, position: nat)
    : seq<AuthorLink>
  {
    if authors == [] then []
    else
      var links := ArrayLinks(biblio, authors[0].ids, table, FunctionCodes(authors[0].functions), 0, position);
      links + AuthorLinksFrom(biblio, authors[1..], table, position + |links|)
  }

  function AuthorLinks(b: LegacyBiblio, table: map<string, string>): seq<AuthorLink> {
    AuthorLinksFrom(b.id, b.authors, table, 1)
  }

  /** Links of one biblio, numbered consecutively. */
  ghost predicate Numbered(links: seq<AuthorLink>, biblio: int, position: nat) {
    forall k :: 0 <= k < |links| ==>
      links[k].biblioId == biblio && links[k].authorId > 0 && links[k].position == position + k
  }

  lemma NumberedConcat(a: seq<AuthorLink>, b: seq<AuthorLink>, biblio: int, position: nat)
    requires Numbered(a, biblio, position) && Numbered(b, biblio, position + |a|)
    ensures Numbered(a + b, biblio, position)
  {
  }

  lemma {:induction false} ArrayLinksNumbered(biblio: int, ids: seq<Option<int>>, table: map<string, string>,
                                              codes: seq<string>, index: nat, position: nat)
    ensures Numbered(ArrayLinks(biblio, ids, table, codes, index, position), biblio, position)
  {
    if ids != [] {
      match FkId(ids[0])
      case None =>
        ArrayLinksNumbered(biblio, ids[1..], table, codes, index + 1, position);
      case Some(id) =>
        ArrayLinksNumbered(biblio, ids[1..], table, codes, index + 1, position + 1);
        NumberedConcat([AuthorLink(biblio, id, AuthorFunction(table, codes, index), position)],
                       ArrayLinks(biblio, ids[1..], table, codes, index + 1, position + 1), biblio, position);
    }
  }

  lemma {:induction false} AuthorLinksNumbered(biblio: int, authors: seq<LegacyAuthors>, table: map<string, string>,
                                               position: nat)
    ensures Numbered(AuthorLinksFrom(biblio, authors, table, position), biblio, position)
  {
    if authors != [] {
      var codes := FunctionCodes(authors[0].functions);
      var first := ArrayLinks(biblio, authors[0].ids, table, codes, 0, position);
      ArrayLinksNumbered(biblio, authors[0].ids, table, codes, 0, position);
      AuthorLinksNumbered(biblio, authors[1..], table, position + |first|);
      NumberedConcat(first, AuthorLinksFrom(biblio, authors[1..], table, position + |first|), biblio, position);
    }
  }

  /** The authors of one biblio are numbered from one without gaps, across its three arrays. */
  lemma AuthorsNumbered(b: LegacyBiblio, table: map<string, string>)
    ensures Numbered(AuthorLinks(b, table), b.id, 1)
  {
    AuthorLinksNumbered(b.id, b.authors, table, 1);
  }
}
