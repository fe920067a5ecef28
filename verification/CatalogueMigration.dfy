/**
 The legacy migration of the catalogue and its loans: biblios with their links, then copies, then
 loans and loan archives, carrying the skipped biblio ids and the migrated copy ids from stage to
 stage. The target checks its own constraints on every insertion. A refused row ends the run,
 except in the link tables, and what is not committed by then is lost.
 */
module CatalogueMigration {
  import opened Options
  import opened Sequences
  import opened LegacyModel
  import opened BiblioStage
  import opened LinkStage
  import opened CopyRules
  import opened CopyStage
  import opened LoanStage

  class Target {
    const refs: References
    var biblios: map<int, NewBiblio>
    var items: map<int, NewItem>
    var loans: map<int, NewLoan>
    var loansArchives: map<int, NewArchive>
    var biblioSeries: map<(int, int), Option<int>>
    var biblioCollections: map<(int, int), Option<int>>
    var biblioAuthors: seq<AuthorLink>

    ghost predicate Empty()
      reads this
    {
      && biblios == map[] && items == map[] && loans == map[] && loansArchives == map[]
      && biblioSeries == map[] && biblioCollections == map[] && biblioAuthors == []
    }

    constructor (refs: References)
      ensures Empty() && this.refs == refs
    {
      this.refs := refs;
      biblios, items, loans, loansArchives := map[], map[], map[], map[];
      biblioSeries, biblioCollections, biblioAuthors := map[], map[], [];
    }

    // ── Insertions, ON CONFLICT (id) DO NOTHING ──────────────────────────────

    method InsertBiblio(b: NewBiblio) returns (ok: bool)
      modifies this`biblios
      ensures ok <==> BiblioWidths(b) && (b.id in old(biblios) || BiblioReferences(b, refs))
      ensures biblios == if ok && b.id !in old(biblios) then old(biblios)[b.id := StoredBiblio(b)] else old(biblios)
    {
      if !BiblioWidths(b) {
        return false;
      }
      if b.id in biblios {
        return true;
      }
      ok := BiblioReferences(b, refs);
      if ok {
        biblios := biblios[b.id := StoredBiblio(b)];
      }
    }

    /** Also under the unique index on barcodes. */
    method InsertItem(item: NewItem) returns (ok: bool)
      modifies this`items
      ensures ok <==>
        && ItemWidths(item)
        && (item.id in old(items)
            || (ItemReferences(item, biblios.Keys, refs.sources)
                && (item.barcode.Some? ==> !BarcodeInUse(old(items), StoredItem(item).barcode.value))))
      ensures items == if ok && item.id !in old(items) then old(items)[item.id := StoredItem(item)] else old(items)
    {
      if !ItemWidths(item) {
        return false;
      }
      if item.id in items {
        return true;
      }
      if item.barcode.Some? && BarcodeInUse(items, StoredItem(item).barcode.value) {
        return false;
      }
      ok := ItemReferences(item, biblios.Keys, refs.sources);
      if ok {
        items := items[item.id := StoredItem(item)];
      }
    }

    method InsertLoan(id: int, loan: NewLoan) returns (ok: bool)
      modifies this`loans
      ensures ok <==> LoanAccepted(loan) && (id in old(loans) || loan.itemId in items)
      ensures loans == if ok && id !in old(loans) then old(loans)[id := loan] else old(loans)
    {
      if !LoanAccepted(loan) {
        return false;
      }
      if id in loans {
        return true;
      }
      ok := loan.itemId in items;
      if ok {
        loans := loans[id := loan];
      }
    }

    method InsertArchive(id: int, a: NewArchive) returns (ok: bool)
      modifies this`loansArchives
      ensures ok <==> ArchiveAccepted(a) && (id in old(loansArchives) || a.itemId in items)
      ensures loansArchives
           == if ok && id !in old(loansArchives) then old(loansArchives)[id := StoredArchive(a)] else old(loansArchives)
    {
      if !ArchiveAccepted(a) {
        return false;
      }
      if id in loansArchives {
        return true;
      }
      ok := a.itemId in items;
      if ok {
        loansArchives := loansArchives[id := StoredArchive(a)];
      }
    }

    // ── Biblios ──────────────────────────────────────────────────────────────

    /** The links of a row join those that wait to be inserted. */
    static method AddLinks(st: Batches, row: LegacyBiblio, functions: map<string, string>) returns (st': Batches)
      requires !IsSkipped(row)
      ensures st' == BatchesWith(st, row, functions)
    {
      st' := st;
      var serie, collection := FkId(row.serieId), FkId(row.collectionId);
      if serie.Some? {
        st' := st'.(series := st'.series + [Link(row.id, serie.value, row.serieVolume)]);
      }
      if collection.Some? {
        st' := st'.(collections := st'.collections + [Link(row.id, collection.value, row.collectionVolume)]);
      }
      st' := st'.(authors := st'.authors + AuthorLinks(row, functions));
    }

    /** One row of the biblio stage. */
    method MigrateItem(rows: seq<LegacyBiblio>, n: nat, tables: CodeTables, st: Batches)
      returns (ok: bool, st': Batches)
      requires n < |rows| && BibliosDistinct(rows) && BibliosDone(rows, n, tables, refs, biblios, st)
      modifies this`biblios
      ensures ok <==> !RejectedBiblio(rows[n], tables, refs)
      ensures ok ==> BibliosDone(rows, n + 1, tables, refs, biblios, st')
    {
      var row := rows[n];
      TableIsTable(rows, n, tables);
      if IsSkipped(row) {
        return true, st.(skipped := st.skipped + {row.id}, skippedCount := st.skippedCount + 1);
      }
      ok := InsertBiblio(BiblioOf(row, tables));
      st' := AddLinks(st, row, tables.functions);
    }

    /** The rows `from` to `end` of one page. If one is refused, the page is rolled back. */
    method MigrateBiblioPage(rows: seq<LegacyBiblio>, from: nat, end: nat, tables: CodeTables, st: Batches)
      returns (ok: bool, st': Batches, ghost stop: nat)
      requires from <= end <= |rows| && BibliosDistinct(rows)
      requires BibliosDone(rows, from, tables, refs, biblios, st)
      modifies this`biblios
      ensures from <= stop <= end && (ok <==> stop == end)
      ensures ok ==> BibliosDone(rows, end, tables, refs, biblios, st')
      ensures !ok ==> biblios == old(biblios) && StopsAtBiblio(rows, tables, refs, stop)
    {
      var committed := biblios;
      st', stop := st, from;
      for n := from to end
        invariant stop == n && BibliosDone(rows, n, tables, refs, biblios, st')
      {
        ok, st' := MigrateItem(rows, n, tables, st');
        if !ok {
          biblios := committed;
          return;
        }
        stop := n + 1;
      }
      ok := true;
    }

    /**
     The paging loop over the legacy biblios, committed page by page. It stops at the first row
     that the target refuses, with the whole pages before it in the table.
     */
    method MigrateBiblios(rows: seq<LegacyBiblio>, tables: CodeTables) returns (ok: bool, st: Batches, ghost stop: nat)
      requires BibliosDistinct(rows) && biblios == map[]
      modifies this`biblios
      ensures StopsAtBiblio(rows, tables, refs, stop) && (ok <==> stop == |rows|)
      ensures BiblioTable(rows, if ok then |rows| else WholePages(stop), tables, biblios)
      ensures ok ==> BatchesDone(rows, |rows|, tables.functions, st) && st.skippedCount + |biblios| == |rows|
    {
      st := Batches({}, 0, [], [], []);
      var total, offset := |rows|, 0;
      stop := 0;
      while offset < total
        invariant WholePages(offset) == offset && stop == if offset < total then offset else total
        invariant BibliosDone(rows, stop, tables, refs, biblios, st)
      {
        var end := if offset + PAGE < total then offset + PAGE else total;
        PageStart(offset, offset);
        ok, st, stop := MigrateBiblioPage(rows, offset, end, tables, st);
        if !ok {
          PageStart(offset, stop);
          TableIsTable(rows, offset, tables);
          return;
        }
        offset := offset + PAGE;
      }
      TableIsTable(rows, total, tables);
      BatchesAreDone(rows, total, tables.functions);
      EveryRowCounted(rows, total, tables);
      ok := true;
    }

    /** One batch of link rows. A refused row is passed over, and the rollback undoes the rows before it. */
    static method InsertLinkBatch(batch: seq<Link>, valid: Link -> bool, committed: map<(int, int), Option<int>>,
                                  ghost before: seq<Link>)
      returns (table: map<(int, int), Option<int>>)
      requires LinkTable(before, committed)
      ensures LinkTable(before + AfterLastFailure(batch, valid), table)
    {
      table := committed;
      assert before + AfterLastFailure(batch[..0], valid) == before;
      for j := 0 to |batch|
        invariant LinkTable(before + AfterLastFailure(batch[..j], valid), table)
      {
        var l := batch[j];
        LinkBatchStep(batch, j, valid, before, committed, table);
        if !valid(l) {
          table := committed;
        } else if LinkKey(l) !in table {
          table := table[LinkKey(l) := l.volume];
        }
      }
      assert batch[..|batch|] == batch;
    }

    /** The link rows, batch by batch. */
    static method InsertLinks(links: seq<Link>, valid: Link -> bool) returns (table: map<(int, int), Option<int>>)
      ensures LinkTable(Surviving(links, valid), table)
    {
      table := map[];
      ghost var kept: seq<Link> := [];
      var i := 0;
      assert links[0..] == links;
      while i < |links|
        invariant i <= |links| && LinkTable(kept, table)
        invariant kept + Surviving(links[i..], valid) == Surviving(links, valid)
      {
        var end := if i + LINK_BATCH < |links| then i + LINK_BATCH else |links|;
        table := InsertLinkBatch(links[i..end], valid, table, kept);
        NextBatch(links, i, end, valid, kept);
        kept := kept + AfterLastFailure(links[i..end], valid);
        i := end;
      }
      assert links[i..] == [] && kept + [] == kept;
    }

    /** One batch of author rows. */
    static method InsertAuthorBatch(batch: seq<AuthorLink>, valid: AuthorLink -> bool, committed: seq<AuthorLink>,
                                    ghost before: seq<AuthorLink>)
      returns (table: seq<AuthorLink>)
      requires committed == StoredAuthors(before)
      ensures table == StoredAuthors(before + AfterLastFailure(batch, valid))
    {
      table := committed;
      assert before + AfterLastFailure(batch[..0], valid) == before;
      for j := 0 to |batch|
        invariant table == StoredAuthors(before + AfterLastFailure(batch[..j], valid))
      {
        var l := batch[j];
        AuthorBatchStep(batch, j, valid, before);
        if !valid(l) {
          table := committed;
        } else if l.function_.None? || !StoredAlready(table, l) {
          table := table + [l];
        }
      }
      assert batch[..|batch|] == batch;
    }

    /** The author rows, batch by batch. */
    static method InsertAuthors(links: seq<AuthorLink>, valid: AuthorLink -> bool) returns (table: seq<AuthorLink>)
      ensures table == StoredAuthors(Surviving(links, valid))
    {
      table := [];
      ghost var kept: seq<AuthorLink> := [];
      var i := 0;
      assert links[0..] == links;
      while i < |links|
        invariant i <= |links| && table == StoredAuthors(kept)
        invariant kept + Surviving(links[i..], valid) == Surviving(links, valid)
      {
        var end := if i + LINK_BATCH < |links| then i + LINK_BATCH else |links|;
        table := InsertAuthorBatch(links[i..end], valid, table, kept);
        NextBatch(links, i, end, valid, kept);
        kept := kept + AfterLastFailure(links[i..end], valid);
        i := end;
      }
      assert links[i..] == [] && kept + [] == kept;
    }

    /** Biblios with their series, collection and author links. */
    method MigrateItems(rows: seq<LegacyBiblio>, tables: CodeTables) returns (ok: bool, skipped: set<int>)
      requires BibliosDistinct(rows) && Empty()
      modifies this`biblios, this`biblioSeries, this`biblioCollections, this`biblioAuthors
      ensures ok <==> BibliosAccepted(rows, tables, refs)
      ensures ok ==> skipped == SkippedIds(rows) && biblios.Keys == KeptIds(rows)
      ensures BibliosLeft(ok, rows, tables, refs, biblios, biblioSeries, biblioCollections, biblioAuthors)
      ensures BibliosSound()
    {
      var done, st, stop := MigrateBiblios(rows, tables);
      StoredBibliosRefer(rows, if done then |rows| else WholePages(stop), tables, refs, biblios);
      if !done {
        return false, {};
      }
      assert rows[..|rows|] == rows;
      biblioSeries := InsertLinks(st.series, ValidLink(biblios.Keys, refs.series));
      LinksAreStored(rows, SeriesLink, refs.series, biblioSeries);
      biblioCollections := InsertLinks(st.collections, ValidLink(biblios.Keys, refs.collections));
      LinksAreStored(rows, CollectionLink, refs.collections, biblioCollections);
      biblioAuthors := InsertAuthors(st.authors, ValidAuthor(biblios.Keys, refs.authors));
      LinksReferToBiblios(rows, tables, refs, biblios, biblioSeries, biblioCollections, biblioAuthors);
      return true, st.skipped;
    }

    // ── Copies ───────────────────────────────────────────────────────────────

    /** Builds the copy of a specimen, clearing a barcode that has been seen. */
    static method BuildCopy(rows: seq<LegacySpecimen>, n: nat, skipped: set<int>, now: int, seen: set<string>)
      returns (item: NewItem, seen': set<string>)
      requires n < |rows| && !SkippedSpecimen(rows[n], skipped) && SeenBarcodes(rows, n, skipped, seen)
      ensures item == CopyOf(rows, skipped, n, now)
      ensures SeenBarcodes(rows, n + 1, skipped, seen')
    {
      var row := rows[n];
      seen' := seen;
      SeenBarcodesStep(rows, n, skipped, seen);
      var barcode, cote := Stripped(row.identification), row.cote;
      if barcode.Some? {
        if barcode.value in seen {
          barcode := None;
        } else {
          seen' := seen + {barcode.value};
        }
      }
      assert barcode == KeptBarcode(rows, skipped, n);
      assert seen' == if Stripped(row.identification).Some? then seen + {Stripped(row.identification).value} else seen;
      if IsToken(cote) && !IsToken(barcode) {
        cote, barcode := barcode, None;
      }
      var archivedAt := TsToDatetime(row.archiveDate);
      if row.isArchive == Some(1) && archivedAt.None? {
        archivedAt := Some(now);
      }
      item := NewItem(row.id, FkId(row.idItem), FkId(row.sourceId), barcode, cote, row.status != Some(110), archivedAt);
    }

    /** One row of the copy stage. */
    method MigrateSpecimen(rows: seq<LegacySpecimen>, n: nat, skipped: set<int>, now: int, seen: set<string>)
      returns (ok: bool, seen': set<string>)
      requires n < |rows| && SpecimensSorted(rows)
      requires CopiesDone(rows, n, skipped, biblios.Keys, refs.sources, now, items, seen)
      modifies this`items
      ensures ok <==> !RejectedSpecimen(rows, skipped, biblios.Keys, refs.sources, now, n)
      ensures ok ==> CopiesDone(rows, n + 1, skipped, biblios.Keys, refs.sources, now, items, seen')
      ensures ok ==> |items| == |old(items)| + if SkippedSpecimen(rows[n], skipped) then 0 else 1
    {
      CopyTableStep(rows, n, skipped, now, items);
      if SkippedSpecimen(rows[n], skipped) {
        SeenBarcodesStep(rows, n, skipped, seen);
        return true, seen;
      }
      var item;
      item, seen' := BuildCopy(rows, n, skipped, now, seen);
      if item.barcode.Some? {
        FreshBarcodeIsFree(rows, n, skipped, biblios.Keys, refs.sources, now, items, seen);
        BarcodeIsNotCut(rows, skipped, n, now);
      }
      ok := InsertItem(item);
    }

    /** The rows `from` to `end` of one page. If one is refused, the page is rolled back. */
    method MigrateSpecimenPage(rows: seq<LegacySpecimen>, from: nat, end: nat, skipped: set<int>, now: int,
                               seen: set<string>)
      returns (ok: bool, seen': set<string>, skippedCount: nat, ghost stop: nat)
      requires from <= end <= |rows| && SpecimensSorted(rows)
      requires CopiesDone(rows, from, skipped, biblios.Keys, refs.sources, now, items, seen)
      modifies this`items
      ensures from <= stop <= end && (ok <==> stop == end)
      ensures ok ==> CopiesDone(rows, end, skipped, biblios.Keys, refs.sources, now, items, seen')
      ensures ok ==> |items| + skippedCount == |old(items)| + end - from
      ensures !ok ==> items == old(items)
                      && StopsAtSpecimen(rows, skipped, biblios.Keys, refs.sources, now, stop)
    {
      var committed := items;
      seen', skippedCount, stop := seen, 0, from;
      for n := from to end
        invariant stop == n && CopiesDone(rows, n, skipped, biblios.Keys, refs.sources, now, items, seen')
        invariant |items| + skippedCount == |committed| + n - from
      {
        if SkippedSpecimen(rows[n], skipped) {
          skippedCount := skippedCount + 1;
        }
        ok, seen' := MigrateSpecimen(rows, n, skipped, now, seen');
        if !ok {
          items := committed;
          return;
        }
        stop := n + 1;
      }
      ok := true;
    }

    /**
     The paging loop over the legacy specimens, committed page by page. It stops at the first copy
     that the target refuses, with the whole pages before it in the table. No copy is refused for a
     barcode that another copy has.
     */
    method MigrateSpecimens(rows: seq<LegacySpecimen>, skipped: set<int>, now: int)
      returns (ok: bool, skippedCount: nat, ghost stop: nat)
      requires SpecimensSorted(rows) && items == map[]
      modifies this`items
      ensures StopsAtSpecimen(rows, skipped, biblios.Keys, refs.sources, now, stop) && (ok <==> stop == |rows|)
      ensures CopyTable(rows, if ok then |rows| else WholePages(stop), skipped, now, items)
      ensures ok ==> |items| + skippedCount == |rows|
    {
      skippedCount := 0;
      var seen: set<string> := {};
      var total, offset := |rows|, 0;
      stop := 0;
      while offset < total
        invariant WholePages(offset) == offset && stop == if offset < total then offset else total
        invariant CopiesDone(rows, stop, skipped, biblios.Keys, refs.sources, now, items, seen)
        invariant |items| + skippedCount == stop
      {
        var end := if offset + PAGE < total then offset + PAGE else total;
        var pageSkipped;
        PageStart(offset, offset);
        ok, seen, pageSkipped, stop := MigrateSpecimenPage(rows, offset, end, skipped, now, seen);
        if !ok {
          PageStart(offset, stop);
          return;
        }
        skippedCount := skippedCount + pageSkipped;
        offset := offset + PAGE;
      }
      ok := true;
    }

    /** The copy stage, as the next stage finds it. */
    method MigrateCopies(rows: seq<LegacySpecimen>, skipped: set<int>, now: int) returns (ok: bool)
      requires SpecimensSorted(rows) && items == map[]
      modifies this`items
      ensures ok <==> NoneRejected(rows, skipped, biblios.Keys, refs.sources, now, |rows|)
      ensures CopiesLeft(ok, rows, skipped, biblios.Keys, refs, now, items)
      ensures CopiesSound()
    {
      var done, _, stop := MigrateSpecimens(rows, skipped, now);
      CopiesRefer(rows, if done then |rows| else WholePages(stop), skipped, biblios.Keys, refs.sources, now, items);
      return done;
    }

    // ── Loans ────────────────────────────────────────────────────────────────

    /** One borrow. */
    method MigrateBorrow(rows: seq<LegacyBorrow>, n: nat, migrated: set<int>, cities: map<int, Option<string>>,
                         active: nat, archived: nat, skipped: nat)
      returns (ok: bool, active': nat, archived': nat, skipped': nat)
      requires n < |rows| && BorrowsDistinct(rows) && migrated <= items.Keys
      requires LoansCounted(rows, n, migrated, cities, loans, loansArchives, active, archived, skipped)
      modifies this`loans, this`loansArchives
      ensures ok <==> !RejectedBorrow(rows[n], migrated, cities)
      ensures ok ==> LoansCounted(rows, n + 1, migrated, cities, loans, loansArchives, active', archived', skipped')
    {
      var row := rows[n];
      LoansStep(rows, n, migrated, cities, loans, loansArchives);
      active', archived', skipped' := active, archived, skipped;
      var itemId := FkId(row.specimenId);
      if itemId.None? || itemId.value !in migrated {
        ok, skipped' := true, skipped + 1;
      } else if row.returnedDate.Some? && row.returnedDate.value != 0 {
        ok := InsertArchive(row.id, ReturnedLoanOf(row, itemId.value, cities));
        archived' := archived + 1;
      } else {
        ok := InsertLoan(row.id, LoanOf(row, itemId.value));
        active' := active + 1;
      }
    }

    /**
     Borrows become active loans, archived loans, or nothing; every borrow is counted once. One
     refused row, and nothing is stored.
     */
    method MigrateLoans(borrows: seq<LegacyBorrow>, migrated: set<int>, cities: map<int, Option<string>>)
      returns (ok: bool, active: nat, archived: nat, skipped: nat)
      requires BorrowsDistinct(borrows) && migrated <= items.Keys && loans == map[] && loansArchives == map[]
      modifies this`loans, this`loansArchives
      ensures ok <==> forall i :: 0 <= i < |borrows| ==> !RejectedBorrow(borrows[i], migrated, cities)
      ensures ok ==> LoansCounted(borrows, |borrows|, migrated, cities, loans, loansArchives, active, archived, skipped)
      ensures !ok ==> loans == map[] && loansArchives == map[]
    {
      active, archived, skipped := 0, 0, 0;
      for n := 0 to |borrows|
        invariant LoansCounted(borrows, n, migrated, cities, loans, loansArchives, active, archived, skipped)
        invariant forall i :: 0 <= i < n ==> !RejectedBorrow(borrows[i], migrated, cities)
      {
        ok, active, archived, skipped := MigrateBorrow(borrows, n, migrated, cities, active, archived, skipped);
        if !ok {
          loans, loansArchives := map[], map[];
          return;
        }
      }
      ok := true;
    }

    /** One row of the archive stage. */
    method MigrateArchive(rows: seq<LegacyArchive>, n: nat, migrated: set<int>, ghost before: map<int, NewArchive>,
                          count: nat, skipped: nat)
      returns (ok: bool, count': nat, skipped': nat)
      requires n < |rows| && ArchivesDistinct(rows) && migrated <= items.Keys
      requires ArchivesCounted(rows, n, migrated, before, loansArchives, count, skipped)
      modifies this`loansArchives
      ensures ok <==> !RejectedArchive(rows[n], migrated)
      ensures ok ==> ArchivesCounted(rows, n + 1, migrated, before, loansArchives, count', skipped')
    {
      ArchivesStep(rows, n, migrated, before, loansArchives);
      var itemId := FkId(rows[n].specimenId);
      if itemId.None? || itemId.value !in migrated {
        return true, count, skipped + 1;
      }
      ok := InsertArchive(rows[n].id, ArchiveOf(rows[n], itemId.value));
      count', skipped' := count + 1, skipped;
    }

    /**
     Archived borrows are added to what the previous stage archived; a row whose id is taken is
     counted all the same. One refused row, and nothing is added.
     */
    method MigrateLoansArchives(rows: seq<LegacyArchive>, migrated: set<int>)
      returns (ok: bool, count: nat, skipped: nat)
      requires ArchivesDistinct(rows) && migrated <= items.Keys
      modifies this`loansArchives
      ensures ok <==> forall i :: 0 <= i < |rows| ==> !RejectedArchive(rows[i], migrated)
      ensures ok ==> ArchivesCounted(rows, |rows|, migrated, old(loansArchives), loansArchives, count, skipped)
      ensures !ok ==> loansArchives == old(loansArchives)
    {
      count, skipped := 0, 0;
      var committed := loansArchives;
      for n := 0 to |rows|
        invariant ArchivesCounted(rows, n, migrated, committed, loansArchives, count, skipped)
        invariant forall i :: 0 <= i < n ==> !RejectedArchive(rows[i], migrated)
      {
        ok, count, skipped := MigrateArchive(rows, n, migrated, committed, count, skipped);
        if !ok {
          loansArchives := committed;
          return;
        }
      }
      ok := true;
    }

    /** Active loans and both sources of archived loans. */
    method MigrateLoanTables(borrows: seq<LegacyBorrow>, archives: seq<LegacyArchive>, migrated: set<int>,
                             cities: map<int, Option<string>>)
      returns (end: Ending)
      requires BorrowsDistinct(borrows) && ArchivesDistinct(archives) && migrated == items.Keys
      requires loans == map[] && loansArchives == map[]
      modifies this`loans, this`loansArchives
      ensures end == LoansEnd(borrows, archives, migrated, cities)
      ensures LoanTables(end, borrows, archives, migrated, cities, loans, loansArchives)
      ensures LoansSound()
    {
      var ok, _, _, _ := MigrateLoans(borrows, migrated, cities);
      if !ok {
        return StoppedAtLoans;
      }
      ghost var returned := loansArchives;
      var added, _, _ := MigrateLoansArchives(archives, migrated);
      end := if added then Completed else StoppedAtArchives;
      LoanTablesRefer(end, borrows, archives, migrated, cities, loans, loansArchives);
    }

    // ── The stages in order ──────────────────────────────────────────────────

    ghost predicate BibliosSound()
      reads this
    {
      && (forall id :: id in biblios ==> BiblioReferences(biblios[id], refs))
      && (forall k :: k in biblioSeries ==> k.0 in biblios && k.1 in refs.series)
      && (forall k :: k in biblioCollections ==> k.0 in biblios && k.1 in refs.collections)
      && (forall l :: l in biblioAuthors ==> l.biblioId in biblios && l.authorId in refs.authors)
    }

    ghost predicate CopiesSound()
      reads this
    {
      && (forall id :: id in items ==> ItemReferences(items[id], biblios.Keys, refs.sources))
      && (forall x, y :: x in items && y in items && x != y && items[x].barcode.Some? ==>
            items[x].barcode != items[y].barcode)
    }

    ghost predicate LoansSound()
      reads this
    {
      && (forall id :: id in loans ==> loans[id].itemId in items && loans[id].date.Some?)
      && (forall id :: id in loansArchives ==> loansArchives[id].itemId in items)
    }

    /** No row refers to something that is not there, barcodes are unique, and loans have dates. */
    ghost predicate ReferencesSound()
      reads this
    {
      BibliosSound() && CopiesSound() && LoansSound()
    }

    /** The stages behind the biblios. */
    method MigrateCopiesAndLoans(src: Source, skipped: set<int>, now: int) returns (end: Ending)
      requires HasKeys(src) && skipped == SkippedIds(src.biblios) && biblios.Keys == KeptIds(src.biblios)
      requires items == map[] && loans == map[] && loansArchives == map[]
      modifies this`items, this`loans, this`loansArchives
      ensures end == if CopiesAccepted(src, refs, now) then LoansEnd(src.borrows, src.archives, MigratedIds(src), src.cities)
                     else StoppedAtCopies
      ensures CopiesLeft(!end.StoppedAtCopies?, src.specimens, skipped, biblios.Keys, refs, now, items)
      ensures LoanTables(end, src.borrows, src.archives, items.Keys, src.cities, loans, loansArchives)
      ensures CopiesSound() && LoansSound()
    {
      var ok := MigrateCopies(src.specimens, skipped, now);
      if !ok {
        return StoppedAtCopies;
      }
      MigratedIdsAre(src, now, items);
      end := MigrateLoanTables(src.borrows, src.archives, items.Keys, src.cities);
    }

    /**
     The pipeline on an empty target. How it ends is decided by the legacy rows and the ids that
     earlier stages left, every table then holds what its ending calls for, and all references are
     sound however it ends.
     */
    method MigrateCatalogue(src: Source, tables: CodeTables, now: int) returns (end: Ending)
      requires Empty() && HasKeys(src)
      modifies this
      ensures end == EndOf(src, tables, refs, now)
      ensures BibliosLeft(!end.StoppedAtBiblios?, src.biblios, tables, refs, biblios, biblioSeries, biblioCollections,
                          biblioAuthors)
      ensures if end.StoppedAtBiblios? then items == map[]
              else CopiesLeft(!end.StoppedAtCopies?, src.specimens, SkippedIds(src.biblios), KeptIds(src.biblios), refs,
                              now, items)
      ensures LoanTables(end, src.borrows, src.archives, items.Keys, src.cities, loans, loansArchives)
      ensures ReferencesSound()
    {
      var ok, skipped := MigrateItems(src.biblios, tables);
      if !ok {
        return StoppedAtBiblios;
      }
      end := MigrateCopiesAndLoans(src, skipped, now);
    }
  }

  lemma NextBatch<T>(links: seq<T>, i: nat, end: nat, valid: T -> bool, kept: seq<T>)
    requires i < |links| && end == if i + LINK_BATCH < |links| then i + LINK_BATCH else |links|
    ensures kept + AfterLastFailure(links[i..end], valid) + Surviving(links[end..], valid)
         == kept + Surviving(links[i..], valid)
  {
    var rest := links[i..];
    if |rest| > LINK_BATCH {
      assert rest[..LINK_BATCH] == links[i..end] && rest[LINK_BATCH..] == links[end..];
    } else {
      assert links[i..end] == rest && links[end..] == [];
      assert AfterLastFailure(rest, valid) + [] == AfterLastFailure(rest, valid);
    }
    ConcatAssociative(kept, AfterLastFailure(links[i..end], valid), Surviving(links[end..], valid));
  }

  // ── The whole pipeline ─────────────────────────────────────────────────────

  /** `cities` are the addresses of the legacy users. */
  datatype Source = Source(
    biblios: seq<LegacyBiblio>, specimens: seq<LegacySpecimen>, borrows: seq<LegacyBorrow>,
    archives: seq<LegacyArchive>, cities: map<int, Option<string>>)

  /** How a run ends: at the first stage in which the target refuses a row, or after all of them. */
  datatype Ending = StoppedAtBiblios | StoppedAtCopies | StoppedAtLoans | StoppedAtArchives | Completed

  /** Primary keys, and the order in which the stages read the rows. */
  ghost predicate HasKeys(src: Source) {
    && BibliosDistinct(src.biblios) && SpecimensSorted(src.specimens)
    && BorrowsDistinct(src.borrows) && ArchivesDistinct(src.archives)
  }

  ghost predicate BibliosAccepted(rows: seq<LegacyBiblio>, tables: CodeTables, refs: References) {
    forall i :: 0 <= i < |rows| ==> !RejectedBiblio(rows[i], tables, refs)
  }

  ghost predicate CopiesAccepted(src: Source, refs: References, now: int) {
    NoneRejected(src.specimens, SkippedIds(src.biblios), KeptIds(src.biblios), refs.sources, now, |src.specimens|)
  }

  /** The ids of the specimens that are not skipped. */
  ghost function MigratedIds(src: Source): set<int> {
    set s | s in src.specimens && !SkippedSpecimen(s, SkippedIds(src.biblios)) :: s.id
  }

  ghost function LoansEnd(borrows: seq<LegacyBorrow>, archives: seq<LegacyArchive>, migrated: set<int>,
                          cities: map<int, Option<string>>): Ending
  {
    if exists i :: 0 <= i < |borrows| && RejectedBorrow(borrows[i], migrated, cities) then StoppedAtLoans
    else if exists i :: 0 <= i < |archives| && RejectedArchive(archives[i], migrated) then StoppedAtArchives
    else Completed
  }

  ghost function EndOf(src: Source, tables: CodeTables, refs: References, now: int): Ending {
    if !BibliosAccepted(src.biblios, tables, refs) then StoppedAtBiblios
    else if !CopiesAccepted(src, refs, now) then StoppedAtCopies
    else LoansEnd(src.borrows, src.archives, MigratedIds(src), src.cities)
  }

  /** The link tables hold the links that survive the rollbacks. */
  ghost predicate LinksDone(rows: seq<LegacyBiblio>, functions: map<string, string>, refs: References,
                            series: map<(int, int), Option<int>>, collections: map<(int, int), Option<int>>,
                            authors: seq<AuthorLink>) {
    && LinksStored(rows, SeriesLink, refs.series, series)
    && LinksStored(rows, CollectionLink, refs.collections, collections)
    && authors == StoredAuthors(Surviving(AllAuthorLinks(rows, functions), ValidAuthor(KeptIds(rows), refs.authors)))
  }

  /** What the biblio stage leaves: everything, or the whole pages before the first refused row. */
  ghost predicate BibliosLeft(ok: bool, rows: seq<LegacyBiblio>, tables: CodeTables, refs: References,
                              biblios: map<int, NewBiblio>, series: map<(int, int), Option<int>>,
                              collections: map<(int, int), Option<int>>, authors: seq<AuthorLink>) {
    if ok then
      BiblioTable(rows, |rows|, tables, biblios) && LinksDone(rows, tables.functions, refs, series, collections, authors)
    else
      && (exists stop: nat :: StopsAtBiblio(rows, tables, refs, stop)
                              && BiblioTable(rows, WholePages(stop), tables, biblios))
      && series == map[] && collections == map[] && authors == []
  }

  /** Likewise for the copy stage. */
  ghost predicate CopiesLeft(ok: bool, rows: seq<LegacySpecimen>, skipped: set<int>, biblioIds: set<int>,
                             refs: References, now: int, items: map<int, NewItem>) {
    if ok then CopyTable(rows, |rows|, skipped, now, items)
    else
      exists stop: nat :: StopsAtSpecimen(rows, skipped, biblioIds, refs.sources, now, stop)
                          && CopyTable(rows, WholePages(stop), skipped, now, items)
  }

  /** What the loan stages leave. */
  ghost predicate LoanTables(end: Ending, borrows: seq<LegacyBorrow>, archives: seq<LegacyArchive>, migrated: set<int>,
                             cities: map<int, Option<string>>, loans: map<int, NewLoan>,
                             archived: map<int, NewArchive>) {
    match end
    case Completed =>
      exists returned ::
        && LoansDone(borrows, |borrows|, migrated, cities, loans, returned)
        && ArchivesDone(archives, |archives|, migrated, returned, archived)
    case StoppedAtArchives => LoansDone(borrows, |borrows|, migrated, cities, loans, archived)
    case _ => loans == map[] && archived == map[]
  }

  /** No link row mentions a biblio that was not migrated. */
  lemma LinksReferToBiblios(rows: seq<LegacyBiblio>, tables: CodeTables, refs: References, biblios: map<int, NewBiblio>,
                            series: map<(int, int), Option<int>>, collections: map<(int, int), Option<int>>,
                            authors: seq<AuthorLink>)
    requires BiblioTable(rows, |rows|, tables, biblios)
    requires LinksDone(rows, tables.functions, refs, series, collections, authors)
    ensures biblios.Keys == KeptIds(rows)
    ensures forall k :: k in series ==> k.0 in biblios && k.1 in refs.series
    ensures forall k :: k in collections ==> k.0 in biblios && k.1 in refs.collections
    ensures forall l :: l in authors ==> l.biblioId in biblios && l.authorId in refs.authors
  {
    assert rows[..|rows|] == rows;
    LinksRefer(rows, SeriesLink, refs.series, series);
    LinksRefer(rows, CollectionLink, refs.collections, collections);
    AuthorsRefer(AllAuthorLinks(rows, tables.functions), KeptIds(rows), refs.authors);
  }

  lemma MigratedIdsAre(src: Source, now: int, items: map<int, NewItem>)
    requires CopyTable(src.specimens, |src.specimens|, SkippedIds(src.biblios), now, items)
    ensures items.Keys == MigratedIds(src)
  {
    var rows, skipped := src.specimens, SkippedIds(src.biblios);
    forall id ensures id in items <==> id in MigratedIds(src) {
      if id in items {
        var i :| 0 <= i < |rows| && IsCopy(rows, i, skipped, id);
        assert rows[i] in rows;
      }
      if id in MigratedIds(src) {
        var s :| s in rows && !SkippedSpecimen(s, skipped) && s.id == id;
        var i :| 0 <= i < |rows| && rows[i] == s;
        assert IsCopy(rows, i, skipped, id);
      }
    }
  }

  /** Every loan and every archived loan names a migrated copy, however the loan stages end. */
  lemma LoanTablesRefer(end: Ending, borrows: seq<LegacyBorrow>, archives: seq<LegacyArchive>, migrated: set<int>,
                        cities: map<int, Option<string>>, loans: map<int, NewLoan>, archived: map<int, NewArchive>)
    requires LoanTables(end, borrows, archives, migrated, cities, loans, archived)
    requires end == LoansEnd(borrows, archives, migrated, cities)
    ensures forall id :: id in loans ==> loans[id].itemId in migrated && loans[id].date.Some?
    ensures forall id :: id in archived ==> archived[id].itemId in migrated
  {
    if end.Completed? {
      var returned :| LoansDone(borrows, |borrows|, migrated, cities, loans, returned)
                      && ArchivesDone(archives, |archives|, migrated, returned, archived);
      LoansReferToCopies(borrows, migrated, cities, loans, returned);
      LoansHaveDates(borrows, migrated, cities, loans, returned);
      ArchivesReferToCopies(archives, migrated, returned, archived);
    } else if end.StoppedAtArchives? {
      LoansReferToCopies(borrows, migrated, cities, loans, archived);
      LoansHaveDates(borrows, migrated, cities, loans, archived);
    }
  }

  // ── When a run completes ───────────────────────────────────────────────────

  /** What the target asks of a biblio that is not skipped. */
  predicate BiblioGuard(b: LegacyBiblio, tables: CodeTables, refs: References) {
    && (NormalIsbn(b.identification).Some? ==> |NormalIsbn(b.identification).value| <= 30)
    && (PrimaryTitle(b.titles).Some? ==> |PrimaryTitle(b.titles).value| <= 500)
    && Fits(Some(MediaTypeCode(tables.mediaTypes, b.mediaType)), 30)
    && Fits(b.dewey, 100) && Fits(b.publicationDate, 20)
    && (FkId(b.sourceId).Some? ==> FkId(b.sourceId).value in refs.sources)
    && (FkId(b.editionId).Some? ==> FkId(b.editionId).value in refs.editions)
  }

  lemma BiblioGuardIff(b: LegacyBiblio, tables: CodeTables, refs: References)
    ensures RejectedBiblio(b, tables, refs) <==> !IsSkipped(b) && !BiblioGuard(b, tables, refs)
  {
    IsbnFitsIff(b.identification);
    TitleFitsIff(b.titles);
  }

  lemma {:induction false} CleanIsbnHasNoBlank(s: string)
    ensures forall c :: c in CleanIsbn(s) ==> c != ' '
  {
    if s != [] {
      CleanIsbnHasNoBlank(s[1..]);
    }
  }

  lemma IsbnFitsIff(identification: Option<string>)
    ensures var isbn := NormalIsbn(identification); Fits(isbn, 30) <==> (isbn.Some? ==> |isbn.value| <= 30)
  {
    var isbn := NormalIsbn(identification);
    if isbn.Some? {
      CleanIsbnHasNoBlank(Strip(identification.value));
      assert |isbn.value| > 30 ==> isbn.value[30] in isbn.value;
    }
  }

  lemma {:induction false} TitleFitsIff(titles: seq<Option<string>>)
    ensures var title := PrimaryTitle(titles); Fits(title, 500) <==> (title.Some? ==> |title.value| <= 500)
  {
    if titles != [] {
      if Stripped(titles[0]).Some? {
        StrippedFitsIff(titles[0], 500);
      } else {
        TitleFitsIff(titles[1..]);
      }
    }
  }

  /** What the target asks of a specimen that is not skipped. */
  ghost predicate SpecimenGuard(src: Source, refs: References, i: nat)
    requires i < |src.specimens|
  {
    var rows, skipped, row := src.specimens, SkippedIds(src.biblios), src.specimens[i];
    && (FkId(row.idItem).Some? ==> exists b :: b in src.biblios && b.id == FkId(row.idItem).value)
    && (FkId(row.sourceId).Some? ==> FkId(row.sourceId).value in refs.sources)
    && (KeptBarcode(rows, skipped, i).Some? ==> |KeptBarcode(rows, skipped, i).value| <= 100)
    && (!Swaps(rows, skipped, i) ==> Fits(row.cote, 100))
  }

  lemma SpecimenGuardIff(src: Source, refs: References, now: int, i: nat)
    requires BibliosDistinct(src.biblios) && i < |src.specimens|
    ensures var skipped := SkippedIds(src.biblios);
      RejectedSpecimen(src.specimens, skipped, KeptIds(src.biblios), refs.sources, now, i)
      <==> !SkippedSpecimen(src.specimens[i], skipped) && !SpecimenGuard(src, refs, i)
  {
    ItemWidthsIff(src.specimens, SkippedIds(src.biblios), i, now);
    if !SkippedSpecimen(src.specimens[i], SkippedIds(src.biblios)) {
      KeptIffExists(src.biblios, src.specimens[i]);
    }
  }

  /** After skipping, a copy's biblio is in the target exactly when it is in the legacy catalogue. */
  lemma KeptIffExists(rows: seq<LegacyBiblio>, row: LegacySpecimen)
    requires BibliosDistinct(rows) && !SkippedSpecimen(row, SkippedIds(rows))
    ensures FkId(row.idItem).Some? ==>
              (FkId(row.idItem).value in KeptIds(rows) <==> exists b :: b in rows && b.id == FkId(row.idItem).value)
  {
    if FkId(row.idItem).Some? {
      var v := FkId(row.idItem).value;
      if b :| b in rows && b.id == v {
        assert v in if IsSkipped(b) then SkippedIds(rows) else KeptIds(rows);
      }
    }
  }

  /** What the target asks of a borrow: a date if it is active, and a city that fits if it is returned. */
  predicate BorrowGuard(b: LegacyBorrow, migrated: set<int>, cities: map<int, Option<string>>) {
    CopyFor(b.specimenId, migrated).Some? ==>
      if b.returnedDate.None? || b.returnedDate.value == 0 then b.date.Some? && b.date.value != 0
      else Fits(CityOf(cities, b.userId), 255)
  }

  predicate ArchiveGuard(a: LegacyArchive, migrated: set<int>) {
    CopyFor(a.specimenId, migrated).Some? ==> Fits(a.city, 255)
  }

  /**
   A run completes if and only if every row that is not skipped fits its columns, names existing
   references and, for an active loan, has a date.
   */
  lemma CompletesIff(src: Source, tables: CodeTables, refs: References, now: int)
    requires HasKeys(src)
    ensures EndOf(src, tables, refs, now).Completed? <==>
      && (forall i :: 0 <= i < |src.biblios| ==> IsSkipped(src.biblios[i]) || BiblioGuard(src.biblios[i], tables, refs))
      && (forall i :: 0 <= i < |src.specimens| ==>
            SkippedSpecimen(src.specimens[i], SkippedIds(src.biblios)) || SpecimenGuard(src, refs, i))
      && (forall i :: 0 <= i < |src.borrows| ==> BorrowGuard(src.borrows[i], MigratedIds(src), src.cities))
      && (forall i :: 0 <= i < |src.archives| ==> ArchiveGuard(src.archives[i], MigratedIds(src)))
  {
    forall i | 0 <= i < |src.biblios|
      ensures RejectedBiblio(src.biblios[i], tables, refs)
        <==> !(IsSkipped(src.biblios[i]) || BiblioGuard(src.biblios[i], tables, refs))
    {
      BiblioGuardIff(src.biblios[i], tables, refs);
    }
    forall i | 0 <= i < |src.specimens|
      ensures RejectedSpecimen(src.specimens, SkippedIds(src.biblios), KeptIds(src.biblios), refs.sources, now, i)
        <==> !(SkippedSpecimen(src.specimens[i], SkippedIds(src.biblios)) || SpecimenGuard(src, refs, i))
    {
      SpecimenGuardIff(src, refs, now, i);
    }
    forall i | 0 <= i < |src.borrows|
      ensures RejectedBorrow(src.borrows[i], MigratedIds(src), src.cities)
        <==> !BorrowGuard(src.borrows[i], MigratedIds(src), src.cities)
    {
      RejectedBorrowIff(src.borrows[i], MigratedIds(src), src.cities);
    }
    assert forall i :: 0 <= i < |src.archives| ==>
        (RejectedArchive(src.archives[i], MigratedIds(src)) <==> !ArchiveGuard(src.archives[i], MigratedIds(src)));
  }
}
