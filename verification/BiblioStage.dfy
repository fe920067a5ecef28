/**
 The biblio stage of the migration: which legacy biblios become rows, which rows the target takes,
 and what the stage hands on to the next ones.
 */
module BiblioStage {
  import opened Options
  import opened Sequences
  import opened LegacyModel

  ghost predicate BibliosDistinct(rows: seq<LegacyBiblio>) {
    forall i, j :: 0 <= i < j < |rows| ==> rows[i].id != rows[j].id
  }

  // ── Rows ───────────────────────────────────────────────────────────────────

  ghost function SkippedIds(rows: seq<LegacyBiblio>): set<int> {
    set b | b in rows && IsSkipped(b) :: b.id
  }

  ghost function KeptIds(rows: seq<LegacyBiblio>): set<int> {
    set b | b in rows && !IsSkipped(b) :: b.id
  }

  function BiblioOf(b: LegacyBiblio, tables: CodeTables): NewBiblio {
    NewBiblio(b.id, MediaTypeCode(tables.mediaTypes, b.mediaType), NormalIsbn(b.identification),
              PrimaryTitle(b.titles), b.dewey, b.publicationDate, FkId(b.sourceId), FkId(b.editionId))
  }

  /** The widths of the columns of `biblios`. */
  predicate BiblioWidths(b: NewBiblio) {
    && Fits(Some(b.mediaType), 30) && Fits(b.isbn, 30) && Fits(b.title, 500) && Fits(b.dewey, 100)
    && Fits(b.publicationDate, 20)
  }

  /** The foreign keys of `biblios`. */
  predicate BiblioReferences(b: NewBiblio, refs: References) {
    && (b.sourceId.Some? ==> b.sourceId.value in refs.sources)
    && (b.editionId.Some? ==> b.editionId.value in refs.editions)
  }

  function StoredBiblio(b: NewBiblio): NewBiblio {
    b.(mediaType := Cut(Some(b.mediaType), 30).value, isbn := Cut(b.isbn, 30), title := Cut(b.title, 500),
       dewey := Cut(b.dewey, 100), publicationDate := Cut(b.publicationDate, 20))
  }

  /** The target refuses the row. */
  predicate RejectedBiblio(row: LegacyBiblio, tables: CodeTables, refs: References) {
    !IsSkipped(row) && !(BiblioWidths(BiblioOf(row, tables)) && BiblioReferences(BiblioOf(row, tables), refs))
  }

  /** Row `stop` is the first that the target refuses; it is behind the last row if there is none. */
  ghost predicate StopsAtBiblio(rows: seq<LegacyBiblio>, tables: CodeTables, refs: References, stop: nat) {
    && stop <= |rows|
    && (forall i :: 0 <= i < stop ==> !RejectedBiblio(rows[i], tables, refs))
    && (stop < |rows| ==> RejectedBiblio(rows[stop], tables, refs))
  }

  // ── The biblio table ───────────────────────────────────────────────────────

  ghost predicate BiblioTable(rows: seq<LegacyBiblio>, n: nat, tables: CodeTables, biblios: map<int, NewBiblio>)
    requires n <= |rows|
  {
    && biblios.Keys == KeptIds(rows[..n])
    && (forall i :: 0 <= i < n && !IsSkipped(rows[i]) ==>
          rows[i].id in biblios && biblios[rows[i].id] == StoredBiblio(BiblioOf(rows[i], tables)))
  }

  lemma BiblioTableStep(rows: seq<LegacyBiblio>, n: nat, tables: CodeTables, biblios: map<int, NewBiblio>)
    requires n < |rows| && BibliosDistinct(rows) && BiblioTable(rows, n, tables, biblios)
    ensures rows[n].id !in biblios
    ensures BiblioTable(rows, n + 1, tables,
                        if IsSkipped(rows[n]) then biblios
                        else biblios[rows[n].id := StoredBiblio(BiblioOf(rows[n], tables))])
  {
    var row := rows[n];
    assert rows[..n + 1] == rows[..n] + [row];
    assert KeptIds(rows[..n + 1]) == KeptIds(rows[..n]) + if IsSkipped(row) then {} else {row.id};
    assert forall b :: b in rows[..n] ==> b.id != row.id;
  }

  /** The table after the first `n` rows. */
  function TableOf(rows: seq<LegacyBiblio>, n: nat, tables: CodeTables): map<int, NewBiblio>
    requires n <= |rows|
  {
    if n == 0 then map[]
    else if IsSkipped(rows[n - 1]) then TableOf(rows, n - 1, tables)
    else TableOf(rows, n - 1, tables)[rows[n - 1].id := StoredBiblio(BiblioOf(rows[n - 1], tables))]
  }

  lemma {:induction false} TableIsTable(rows: seq<LegacyBiblio>, n: nat, tables: CodeTables)
    requires n <= |rows| && BibliosDistinct(rows)
    ensures BiblioTable(rows, n, tables, TableOf(rows, n, tables))
    ensures n < |rows| ==> rows[n].id !in TableOf(rows, n, tables)
  {
    if n == 0 {
      NoBiblios(rows, tables);
    } else {
      TableIsTable(rows, n - 1, tables);
      TableGrows(rows, n, tables);
    }
    if n < |rows| {
      NextIsNew(rows, n, tables, TableOf(rows, n, tables));
    }
  }

  lemma NoBiblios(rows: seq<LegacyBiblio>, tables: CodeTables)
    ensures BiblioTable(rows, 0, tables, map[])
  {
  }

  lemma {:induction false} TableGrows(rows: seq<LegacyBiblio>, n: nat, tables: CodeTables)
    requires 0 < n <= |rows| && BibliosDistinct(rows)
    requires BiblioTable(rows, n - 1, tables, TableOf(rows, n - 1, tables))
    ensures BiblioTable(rows, n, tables, TableOf(rows, n, tables))
  {
    BiblioTableStep(rows, n - 1, tables, TableOf(rows, n - 1, tables));
  }

  lemma NextIsNew(rows: seq<LegacyBiblio>, n: nat, tables: CodeTables, biblios: map<int, NewBiblio>)
    requires n < |rows| && BibliosDistinct(rows) && BiblioTable(rows, n, tables, biblios)
    ensures rows[n].id !in biblios
  {
    assert forall b :: b in rows[..n] ==> b.id != rows[n].id;
  }

  /** Every stored biblio has existing references. */
  lemma StoredBibliosRefer(rows: seq<LegacyBiblio>, n: nat, tables: CodeTables, refs: References,
                           biblios: map<int, NewBiblio>)
    requires n <= |rows| && BiblioTable(rows, n, tables, biblios)
    requires forall i :: 0 <= i < n ==> !RejectedBiblio(rows[i], tables, refs)
    ensures forall id :: id in biblios ==> BiblioReferences(biblios[id], refs)
  {
    forall id | id in biblios ensures BiblioReferences(biblios[id], refs) {
      var i :| 0 <= i < n && rows[..n][i].id == id && !IsSkipped(rows[..n][i]);
      assert !RejectedBiblio(rows[i], tables, refs);
    }
  }

  // ── What is handed on ──────────────────────────────────────────────────────

  /** A row of `biblio_series` or `biblio_collections` to be inserted. */
  function SeriesLink(b: LegacyBiblio): Option<Link> {
    if IsSkipped(b) || FkId(b.serieId).None? then None
    else Some(Link(b.id, FkId(b.serieId).value, b.serieVolume))
  }

  function CollectionLink(b: LegacyBiblio): Option<Link> {
    if IsSkipped(b) || FkId(b.collectionId).None? then None
    else Some(Link(b.id, FkId(b.collectionId).value, b.collectionVolume))
  }

  function AllAuthorLinks(rows: seq<LegacyBiblio>, functions: map<string, string>): seq<AuthorLink> {
    if rows == [] then []
    else
      var b := rows[|rows| - 1];
      AllAuthorLinks(rows[..|rows| - 1], functions) + if IsSkipped(b) then [] else AuthorLinks(b, functions)
  }

  /** The skipped ids and the link rows that wait to be inserted. */
  datatype Batches = Batches(
    skipped: set<int>, skippedCount: nat, series: seq<Link>, collections: seq<Link>, authors: seq<AuthorLink>)

  ghost predicate BatchesDone(rows: seq<LegacyBiblio>, n: nat, functions: map<string, string>, st: Batches)
    requires n <= |rows|
  {
    && st.skipped == SkippedIds(rows[..n])
    && st.series == FilterMap(rows[..n], SeriesLink)
    && st.collections == FilterMap(rows[..n], CollectionLink)
    && st.authors == AllAuthorLinks(rows[..n], functions)
  }

  /** What one row adds to the batches. */
  function BatchesWith(st: Batches, row: LegacyBiblio, functions: map<string, string>): Batches {
    if IsSkipped(row) then st.(skipped := st.skipped + {row.id}, skippedCount := st.skippedCount + 1)
    else st.(series := st.series + OptionToSeq(SeriesLink(row)),
             collections := st.collections + OptionToSeq(CollectionLink(row)),
             authors := st.authors + AuthorLinks(row, functions))
  }

  lemma PrefixFilterMap<T, U>(rows: seq<T>, n: nat, f: T -> Option<U>)
    requires n < |rows|
    ensures FilterMap(rows[..n + 1], f) == FilterMap(rows[..n], f) + OptionToSeq(f(rows[n]))
  {
    assert rows[..n + 1] == rows[..n] + [rows[n]];
    FilterMapSnoc(rows[..n], rows[n], f);
  }

  lemma PrefixSkipped(rows: seq<LegacyBiblio>, n: nat)
    requires n < |rows|
    ensures SkippedIds(rows[..n + 1]) == SkippedIds(rows[..n]) + if IsSkipped(rows[n]) then {rows[n].id} else {}
  {
    assert rows[..n + 1] == rows[..n] + [rows[n]];
  }

  lemma PrefixAuthorLinks(rows: seq<LegacyBiblio>, n: nat, functions: map<string, string>)
    requires n < |rows|
    ensures AllAuthorLinks(rows[..n + 1], functions)
         == AllAuthorLinks(rows[..n], functions) + if IsSkipped(rows[n]) then [] else AuthorLinks(rows[n], functions)
  {
    assert rows[..n + 1][..n] == rows[..n];
  }

  lemma BatchesStep(rows: seq<LegacyBiblio>, n: nat, functions: map<string, string>, st: Batches)
    requires n < |rows| && BatchesDone(rows, n, functions, st)
    ensures BatchesDone(rows, n + 1, functions, BatchesWith(st, rows[n], functions))
  {
    PrefixFilterMap(rows, n, SeriesLink);
    PrefixFilterMap(rows, n, CollectionLink);
    PrefixAuthorLinks(rows, n, functions);
    PrefixSkipped(rows, n);
  }

  /** The batches after the first `n` rows. */
  function BatchesOf(rows: seq<LegacyBiblio>, n: nat, functions: map<string, string>): Batches
    requires n <= |rows|
  {
    if n == 0 then Batches({}, 0, [], [], []) else BatchesWith(BatchesOf(rows, n - 1, functions), rows[n - 1], functions)
  }

  lemma {:induction false} BatchesAreDone(rows: seq<LegacyBiblio>, n: nat, functions: map<string, string>)
    requires n <= |rows|
    ensures BatchesDone(rows, n, functions, BatchesOf(rows, n, functions))
  {
    if n > 0 {
      BatchesAreDone(rows, n - 1, functions);
      BatchesStep(rows, n - 1, functions, BatchesOf(rows, n - 1, functions));
    }
  }

  /** Each row is in the table or counted as skipped. */
  lemma {:induction false} EveryRowCounted(rows: seq<LegacyBiblio>, n: nat, tables: CodeTables)
    requires n <= |rows| && BibliosDistinct(rows)
    ensures BatchesOf(rows, n, tables.functions).skippedCount + |TableOf(rows, n, tables)| == n
  {
    if n > 0 {
      EveryRowCounted(rows, n - 1, tables);
      TableIsTable(rows, n - 1, tables);
    }
  }

  /** The first `n` rows are dealt with, and none was refused. */
  ghost predicate BibliosDone(rows: seq<LegacyBiblio>, n: nat, tables: CodeTables, refs: References,
                              biblios: map<int, NewBiblio>, st: Batches)
    requires n <= |rows|
  {
    && biblios == TableOf(rows, n, tables)
    && st == BatchesOf(rows, n, tables.functions)
    && (forall i :: 0 <= i < n ==> !RejectedBiblio(rows[i], tables, refs))
  }

  /** Authors are linked to migrated biblios only. */
  lemma {:induction false} AuthorLinksOfKept(rows: seq<LegacyBiblio>, functions: map<string, string>)
    ensures forall l :: l in AllAuthorLinks(rows, functions) ==> l.biblioId in KeptIds(rows)
  {
    if rows != [] {
      var n := |rows| - 1;
      AuthorLinksOfKept(rows[..n], functions);
      AuthorsNumbered(rows[n], functions);
      assert rows == rows[..n] + [rows[n]];
      forall l | l in AllAuthorLinks(rows, functions) ensures l.biblioId in KeptIds(rows) {
        if l in AllAuthorLinks(rows[..n], functions) {
          assert l.biblioId in KeptIds(rows[..n]);
        } else {
          assert l in AuthorLinks(rows[n], functions) && rows[n] in rows;
        }
      }
    }
  }
}
