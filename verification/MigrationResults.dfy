/** What a completed migration leaves in the target, read off the legacy rows. */
module MigrationResults {
  import opened Options
  import opened LegacyModel
  import opened BiblioStage
  import opened CopyStage
  import opened LoanStage
  import opened CatalogueMigration
  import opened MigrationReading

  /** Every row that is not skipped is found again, column by column. */
  ghost predicate RunRead(src: Source, tables: CodeTables, now: int, biblios: map<int, NewBiblio>,
                          items: map<int, NewItem>, loans: map<int, NewLoan>, archived: map<int, NewArchive>) {
    && BibliosRead(src.biblios, |src.biblios|, tables, biblios)
    && CopiesRead(src.specimens, |src.specimens|, SkippedIds(src.biblios), now, items)
    && (forall i :: 0 <= i < |src.borrows| ==> BorrowRead(src.borrows[i], MigratedIds(src), src.cities, loans, archived))
    && (forall i :: 0 <= i < |src.archives| ==> ArchivedOrTaken(src, src.archives[i], archived))
  }

  /** Every row of the target comes from a legacy row that is not skipped. */
  ghost predicate NothingElse(src: Source, biblios: map<int, NewBiblio>, items: map<int, NewItem>,
                              loans: map<int, NewLoan>, archived: map<int, NewArchive>) {
    && (forall id :: id in biblios ==> exists i :: 0 <= i < |src.biblios| && KeptAs(src.biblios[i], id))
    && (forall id :: id in items ==> exists i :: 0 <= i < |src.specimens| && CopiedAs(src, src.specimens[i], id))
    && (forall id :: id in loans ==>
          exists i :: 0 <= i < |src.borrows| && src.borrows[i].id == id && !WasReturned(src.borrows[i])
                      && OfMigrated(src.borrows[i].specimenId, MigratedIds(src)))
    && (forall id :: id in archived ==> FromBorrow(src, id) || FromArchive(src, id))
  }

  ghost predicate KeptAs(row: LegacyBiblio, id: int) {
    row.id == id && !IsSkipped(row)
  }

  ghost predicate CopiedAs(src: Source, row: LegacySpecimen, id: int) {
    row.id == id && !(row.idItem.Some? && row.idItem.value in SkippedIds(src.biblios))
  }

  ghost predicate FromBorrow(src: Source, id: int) {
    exists i :: 0 <= i < |src.borrows| && src.borrows[i].id == id && WasReturned(src.borrows[i])
                && OfMigrated(src.borrows[i].specimenId, MigratedIds(src))
  }

  ghost predicate FromArchive(src: Source, id: int) {
    exists i :: 0 <= i < |src.archives| && src.archives[i].id == id
                && OfMigrated(src.archives[i].specimenId, MigratedIds(src))
  }

  lemma CataloguedOnly(src: Source, tables: CodeTables, now: int, biblios: map<int, NewBiblio>, items: map<int, NewItem>)
    requires BiblioTable(src.biblios, |src.biblios|, tables, biblios)
    requires CopyTable(src.specimens, |src.specimens|, SkippedIds(src.biblios), now, items)
    ensures forall id :: id in biblios ==> exists i :: 0 <= i < |src.biblios| && KeptAs(src.biblios[i], id)
    ensures forall id :: id in items ==> exists i :: 0 <= i < |src.specimens| && CopiedAs(src, src.specimens[i], id)
  {
    assert src.biblios[..|src.biblios|] == src.biblios;
    forall id | id in biblios ensures exists i :: 0 <= i < |src.biblios| && KeptAs(src.biblios[i], id) {
      assert id in KeptIds(src.biblios);
      var b :| b in src.biblios && !IsSkipped(b) && b.id == id;
      var i :| 0 <= i < |src.biblios| && src.biblios[i] == b;
      assert KeptAs(src.biblios[i], id);
    }
    forall id | id in items ensures exists i :: 0 <= i < |src.specimens| && CopiedAs(src, src.specimens[i], id) {
      var i :| 0 <= i < |src.specimens| && IsCopy(src.specimens, i, SkippedIds(src.biblios), id);
      assert CopiedAs(src, src.specimens[i], id);
    }
  }

  lemma LentOnly(src: Source, loans: map<int, NewLoan>, archived: map<int, NewArchive>)
    requires LoanTables(Completed, src.borrows, src.archives, MigratedIds(src), src.cities, loans, archived)
    ensures forall id :: id in loans ==>
              exists i :: 0 <= i < |src.borrows| && src.borrows[i].id == id && !WasReturned(src.borrows[i])
                          && OfMigrated(src.borrows[i].specimenId, MigratedIds(src))
    ensures forall id :: id in archived ==> FromBorrow(src, id) || FromArchive(src, id)
  {
    var migrated := MigratedIds(src);
    var returned :| LoansDone(src.borrows, |src.borrows|, migrated, src.cities, loans, returned)
                    && ArchivesDone(src.archives, |src.archives|, migrated, returned, archived);
    forall b ensures DestinationOf(b, migrated).Nowhere? <==> !OfMigrated(b.specimenId, migrated) {
      OnlyMigratedBorrows(b, migrated);
    }
    forall id | id in archived ensures FromBorrow(src, id) || FromArchive(src, id) {
      if id in returned {
        var i :| 0 <= i < |src.borrows| && src.borrows[i].id == id && DestinationOf(src.borrows[i], migrated).Archived?;
        OnlyMigratedBorrows(src.borrows[i], migrated);
      } else {
        var i :| 0 <= i < |src.archives| && src.archives[i].id == id
                 && CopyFor(src.archives[i].specimenId, migrated).Some?;
        assert OfMigrated(src.archives[i].specimenId, migrated);
      }
    }
    forall id | id in loans
      ensures exists i :: 0 <= i < |src.borrows| && src.borrows[i].id == id && !WasReturned(src.borrows[i])
                          && OfMigrated(src.borrows[i].specimenId, migrated)
    {
      var i :| 0 <= i < |src.borrows| && src.borrows[i].id == id && DestinationOf(src.borrows[i], migrated).Active?;
      OnlyMigratedBorrows(src.borrows[i], migrated);
    }
  }

  /** What a completed run leaves. */
  lemma RunIsRead(src: Source, tables: CodeTables, refs: References, now: int, biblios: map<int, NewBiblio>,
                  items: map<int, NewItem>, loans: map<int, NewLoan>, archived: map<int, NewArchive>)
    requires EndOf(src, tables, refs, now).Completed?
    requires BiblioTable(src.biblios, |src.biblios|, tables, biblios)
    requires CopyTable(src.specimens, |src.specimens|, SkippedIds(src.biblios), now, items)
    requires LoanTables(Completed, src.borrows, src.archives, MigratedIds(src), src.cities, loans, archived)
    ensures RunRead(src, tables, now, biblios, items, loans, archived)
    ensures NothingElse(src, biblios, items, loans, archived)
  {
    CataloguedOnly(src, tables, now, biblios, items);
    LentOnly(src, loans, archived);
    BibliosAreRead(src.biblios, |src.biblios|, tables, refs, biblios);
    CopiesAreRead(src.specimens, |src.specimens|, SkippedIds(src.biblios), KeptIds(src.biblios), refs.sources, now, items);
    LoansAreRead(src, loans, archived);
  }

  /** An archived borrow of a migrated copy is found again, unless a returned borrow has its id. */
  ghost predicate ArchivedOrTaken(src: Source, row: LegacyArchive, archived: map<int, NewArchive>) {
    OfMigrated(row.specimenId, MigratedIds(src)) ==>
      || (row.id in archived && ArchiveRead(row, archived[row.id]))
      || exists i :: 0 <= i < |src.borrows| && src.borrows[i].id == row.id && WasReturned(src.borrows[i])
  }

  lemma LoansAreRead(src: Source, loans: map<int, NewLoan>, archived: map<int, NewArchive>)
    requires LoansEnd(src.borrows, src.archives, MigratedIds(src), src.cities).Completed?
    requires LoanTables(Completed, src.borrows, src.archives, MigratedIds(src), src.cities, loans, archived)
    ensures forall i :: 0 <= i < |src.borrows| ==> BorrowRead(src.borrows[i], MigratedIds(src), src.cities, loans, archived)
    ensures forall i :: 0 <= i < |src.archives| ==> ArchivedOrTaken(src, src.archives[i], archived)
  {
    var migrated := MigratedIds(src);
    var returned :| LoansDone(src.borrows, |src.borrows|, migrated, src.cities, loans, returned)
                    && ArchivesDone(src.archives, |src.archives|, migrated, returned, archived);
    forall i | 0 <= i < |src.borrows| ensures BorrowRead(src.borrows[i], migrated, src.cities, loans, archived) {
      assert BorrowStored(src.borrows[i], migrated, src.cities, loans, returned);
      assert BorrowStored(src.borrows[i], migrated, src.cities, loans, archived);
      BorrowIsRead(src.borrows[i], migrated, src.cities, loans, archived);
    }
    forall i | 0 <= i < |src.archives| ensures ArchivedOrTaken(src, src.archives[i], archived) {
      var row := src.archives[i];
      assert ArchiveStored(row, migrated, returned, archived);
      ArchivedIsRead(row, migrated, returned, archived);
      if row.id in returned {
        var k :| 0 <= k < |src.borrows| && src.borrows[k].id == row.id && DestinationOf(src.borrows[k], migrated).Archived?;
        OnlyMigratedBorrows(src.borrows[k], migrated);
      }
    }
  }

  /** The pipeline on an empty target: a completed run has every legacy row where and as it should be. */
  method RunMigration(target: Target, src: Source, tables: CodeTables, now: int) returns (end: Ending)
    requires target.Empty() && HasKeys(src)
    modifies target
    ensures end == EndOf(src, tables, target.refs, now)
    ensures end.Completed? ==>
              && RunRead(src, tables, now, target.biblios, target.items, target.loans, target.loansArchives)
              && NothingElse(src, target.biblios, target.items, target.loans, target.loansArchives)
    ensures target.ReferencesSound()
  {
    end := target.MigrateCatalogue(src, tables, now);
    if end.Completed? {
      MigratedIdsAre(src, now, target.items);
      RunIsRead(src, tables, target.refs, now, target.biblios, target.items, target.loans, target.loansArchives);
    }
  }
}
