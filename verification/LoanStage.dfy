/**
 The loan stages of the migration: borrows become active or archived loans, and archived borrows
 are added to the archive. Each stage is committed at its end or not at all.
 */
module LoanStage {
  import opened Options
  import opened LegacyModel

  ghost predicate BorrowsDistinct(rows: seq<LegacyBorrow>) {
    forall i, j :: 0 <= i < j < |rows| ==> rows[i].id != rows[j].id
  }

  ghost predicate ArchivesDistinct(rows: seq<LegacyArchive>) {
    forall i, j :: 0 <= i < j < |rows| ==> rows[i].id != rows[j].id
  }

  // ── Rows ───────────────────────────────────────────────────────────────────

  /** Where a borrow goes. */
  datatype Destination = Nowhere | Active(itemId: int) | Archived(itemId: int)

  function CopyFor(specimenId: Option<int>, migrated: set<int>): Option<int> {
    if FkId(specimenId).Some? && FkId(specimenId).value in migrated then FkId(specimenId) else None
  }

  function DestinationOf(b: LegacyBorrow, migrated: set<int>): Destination {
    match CopyFor(b.specimenId, migrated)
    case None => Nowhere
    case Some(item) => if b.returnedDate.Some? && b.returnedDate.value != 0 then Archived(item) else Active(item)
  }

  function LoanOf(b: LegacyBorrow, item: int): NewLoan {
    NewLoan(b.userId, item, TsToDatetime(b.date), b.notes)
  }

  /** The city of a user, if the user is known and has one. */
  function CityOf(cities: map<int, Option<string>>, user: int): Option<string> {
    if user in cities then cities[user] else None
  }

  function ReturnedLoanOf(b: LegacyBorrow, item: int, cities: map<int, Option<string>>): NewArchive {
    NewArchive(Some(b.userId), item, TsToDatetime(b.date), TsToDatetime(b.returnedDate), b.notes,
               CityOf(cities, b.userId))
  }

  function ArchiveOf(a: LegacyArchive, item: int): NewArchive {
    NewArchive(None, item, TsToDatetime(a.date), TsToDatetime(a.returnedDate), a.notes, a.city)
  }

  function StoredArchive(a: NewArchive): NewArchive {
    a.(city := Cut(a.city, 255))
  }

  /** `loans.date` is NOT NULL. */
  predicate LoanAccepted(l: NewLoan) {
    l.date.Some?
  }

  /** The width of `loans_archives.addr_city`. */
  predicate ArchiveAccepted(a: NewArchive) {
    Fits(a.city, 255)
  }

  /** The target refuses what the borrow becomes. */
  predicate RejectedBorrow(b: LegacyBorrow, migrated: set<int>, cities: map<int, Option<string>>) {
    match DestinationOf(b, migrated)
    case Nowhere => false
    case Active(item) => !LoanAccepted(LoanOf(b, item))
    case Archived(item) => !ArchiveAccepted(ReturnedLoanOf(b, item, cities))
  }

  predicate RejectedArchive(a: LegacyArchive, migrated: set<int>) {
    match CopyFor(a.specimenId, migrated)
    case None => false
    case Some(item) => !ArchiveAccepted(ArchiveOf(a, item))
  }

  /** A borrow is refused if it is active without a date, or returned by a reader whose city is too long. */
  lemma RejectedBorrowIff(b: LegacyBorrow, migrated: set<int>, cities: map<int, Option<string>>)
    ensures RejectedBorrow(b, migrated, cities)
      <==> && CopyFor(b.specimenId, migrated).Some?
           && if b.returnedDate.None? || b.returnedDate.value == 0 then b.date.None? || b.date.value == 0
              else !Fits(CityOf(cities, b.userId), 255)
  {
  }

  // ── Loans ──────────────────────────────────────────────────────────────────

  /** Exactly the active borrows among the first `n`. */
  ghost predicate ActiveIds(rows: seq<LegacyBorrow>, n: nat, migrated: set<int>, ids: set<int>)
    requires n <= |rows|
  {
    && (forall i :: 0 <= i < n && DestinationOf(rows[i], migrated).Active? ==> rows[i].id in ids)
    && (forall id :: id in ids ==> exists i :: 0 <= i < n && rows[i].id == id && DestinationOf(rows[i], migrated).Active?)
  }

  /** Exactly the returned borrows among the first `n`. */
  ghost predicate ReturnedIds(rows: seq<LegacyBorrow>, n: nat, migrated: set<int>, ids: set<int>)
    requires n <= |rows|
  {
    && (forall i :: 0 <= i < n && DestinationOf(rows[i], migrated).Archived? ==> rows[i].id in ids)
    && (forall id :: id in ids ==> exists i :: 0 <= i < n && rows[i].id == id && DestinationOf(rows[i], migrated).Archived?)
  }

  /** What is stored for one borrow. */
  ghost predicate BorrowStored(b: LegacyBorrow, migrated: set<int>, cities: map<int, Option<string>>,
                               loans: map<int, NewLoan>, archives: map<int, NewArchive>) {
    match DestinationOf(b, migrated)
    case Nowhere => true
    case Active(item) => b.id in loans && loans[b.id] == LoanOf(b, item)
    case Archived(item) => b.id in archives && archives[b.id] == StoredArchive(ReturnedLoanOf(b, item, cities))
  }

  ghost predicate LoansDone(rows: seq<LegacyBorrow>, n: nat, migrated: set<int>, cities: map<int, Option<string>>,
                            loans: map<int, NewLoan>, archives: map<int, NewArchive>)
    requires n <= |rows|
  {
    && ActiveIds(rows, n, migrated, loans.Keys)
    && ReturnedIds(rows, n, migrated, archives.Keys)
    && (forall i :: 0 <= i < n ==> BorrowStored(rows[i], migrated, cities, loans, archives))
  }

  lemma LoansStep(rows: seq<LegacyBorrow>, n: nat, migrated: set<int>, cities: map<int, Option<string>>,
                  loans: map<int, NewLoan>, archives: map<int, NewArchive>)
    requires n < |rows| && BorrowsDistinct(rows) && LoansDone(rows, n, migrated, cities, loans, archives)
    ensures rows[n].id !in loans && rows[n].id !in archives
    ensures match DestinationOf(rows[n], migrated)
            case Nowhere => LoansDone(rows, n + 1, migrated, cities, loans, archives)
            case Active(item) =>
              LoansDone(rows, n + 1, migrated, cities, loans[rows[n].id := LoanOf(rows[n], item)], archives)
            case Archived(item) =>
              LoansDone(rows, n + 1, migrated, cities, loans,
                        archives[rows[n].id := StoredArchive(ReturnedLoanOf(rows[n], item, cities))])
  {
    var d, id := DestinationOf(rows[n], migrated), rows[n].id;
    assert forall i :: 0 <= i < n ==> rows[i].id != id;
    var loans' := if d.Active? then loans[id := LoanOf(rows[n], d.itemId)] else loans;
    var archives' :=
      if d.Archived? then archives[id := StoredArchive(ReturnedLoanOf(rows[n], d.itemId, cities))] else archives;
    assert ActiveIds(rows, n + 1, migrated, loans'.Keys);
    assert ReturnedIds(rows, n + 1, migrated, archives'.Keys);
    forall i | 0 <= i < n + 1 ensures BorrowStored(rows[i], migrated, cities, loans', archives') {
      assert i < n ==> BorrowStored(rows[i], migrated, cities, loans, archives);
    }
  }

  /** The borrows that are dealt with, and their counts. */
  ghost predicate LoansCounted(rows: seq<LegacyBorrow>, n: nat, migrated: set<int>, cities: map<int, Option<string>>,
                               loans: map<int, NewLoan>, archives: map<int, NewArchive>, active: nat, archived: nat,
                               skipped: nat)
    requires n <= |rows|
  {
    && LoansDone(rows, n, migrated, cities, loans, archives)
    && active == |loans| && archived == |archives| && active + archived + skipped == n
  }

  lemma LoansReferToCopies(rows: seq<LegacyBorrow>, migrated: set<int>, cities: map<int, Option<string>>,
                           loans: map<int, NewLoan>, archives: map<int, NewArchive>)
    requires LoansDone(rows, |rows|, migrated, cities, loans, archives)
    ensures forall id :: id in loans ==> loans[id].itemId in migrated
    ensures forall id :: id in archives ==> archives[id].itemId in migrated
  {
    forall id | id in loans ensures loans[id].itemId in migrated {
      var i :| 0 <= i < |rows| && rows[i].id == id && DestinationOf(rows[i], migrated).Active?;
      assert BorrowStored(rows[i], migrated, cities, loans, archives);
    }
    forall id | id in archives ensures archives[id].itemId in migrated {
      var i :| 0 <= i < |rows| && rows[i].id == id && DestinationOf(rows[i], migrated).Archived?;
      assert BorrowStored(rows[i], migrated, cities, loans, archives);
    }
  }

  /** No active loan is stored without a date. */
  lemma LoansHaveDates(rows: seq<LegacyBorrow>, migrated: set<int>, cities: map<int, Option<string>>,
                       loans: map<int, NewLoan>, archives: map<int, NewArchive>)
    requires LoansDone(rows, |rows|, migrated, cities, loans, archives)
    requires forall i :: 0 <= i < |rows| ==> !RejectedBorrow(rows[i], migrated, cities)
    ensures forall id :: id in loans ==> loans[id].date.Some?
  {
    forall id | id in loans ensures loans[id].date.Some? {
      var i :| 0 <= i < |rows| && rows[i].id == id && DestinationOf(rows[i], migrated).Active?;
      assert BorrowStored(rows[i], migrated, cities, loans, archives) && !RejectedBorrow(rows[i], migrated, cities);
    }
  }

  // ── Archived borrows ───────────────────────────────────────────────────────

  /** Exactly the ids that were there and those of the first `n` archive rows that are not skipped. */
  ghost predicate ArchivedIds(rows: seq<LegacyArchive>, n: nat, migrated: set<int>, before: set<int>, ids: set<int>)
    requires n <= |rows|
  {
    && before <= ids
    && (forall i :: 0 <= i < n && CopyFor(rows[i].specimenId, migrated).Some? ==> rows[i].id in ids)
    && (forall id :: id in ids && id !in before ==>
          exists i :: 0 <= i < n && rows[i].id == id && CopyFor(rows[i].specimenId, migrated).Some?)
  }

  /** How many of the first `n` archive rows are not skipped. */
  function ArchivedCount(rows: seq<LegacyArchive>, n: nat, migrated: set<int>): nat
    requires n <= |rows|
  {
    if n == 0 then 0
    else ArchivedCount(rows, n - 1, migrated) + if CopyFor(rows[n - 1].specimenId, migrated).Some? then 1 else 0
  }

  /** How many of them find their id free. */
  ghost function StoredCount(rows: seq<LegacyArchive>, n: nat, migrated: set<int>, before: set<int>): nat
    requires n <= |rows|
  {
    if n == 0 then 0
    else
      StoredCount(rows, n - 1, migrated, before)
      + if CopyFor(rows[n - 1].specimenId, migrated).Some? && rows[n - 1].id !in before then 1 else 0
  }

  /** What is stored for one archive row. */
  ghost predicate ArchiveStored(row: LegacyArchive, migrated: set<int>, before: map<int, NewArchive>,
                                archives: map<int, NewArchive>) {
    CopyFor(row.specimenId, migrated).Some? && row.id !in before ==>
      && row.id in archives
      && archives[row.id] == StoredArchive(ArchiveOf(row, CopyFor(row.specimenId, migrated).value))
  }

  /** Archive rows are added unless their id is taken. */
  ghost predicate ArchivesDone(rows: seq<LegacyArchive>, n: nat, migrated: set<int>, before: map<int, NewArchive>,
                               archives: map<int, NewArchive>)
    requires n <= |rows|
  {
    && ArchivedIds(rows, n, migrated, before.Keys, archives.Keys)
    && (forall id :: id in before ==> archives[id] == before[id])
    && (forall i :: 0 <= i < n ==> ArchiveStored(rows[i], migrated, before, archives))
  }

  /** The archive rows that are dealt with, and their counts. */
  ghost predicate ArchivesCounted(rows: seq<LegacyArchive>, n: nat, migrated: set<int>, before: map<int, NewArchive>,
                                  archives: map<int, NewArchive>, count: nat, skipped: nat)
    requires n <= |rows|
  {
    && ArchivesDone(rows, n, migrated, before, archives)
    && count == ArchivedCount(rows, n, migrated) && count + skipped == n
    && |archives| == |before| + StoredCount(rows, n, migrated, before.Keys)
  }

  lemma ArchivesStep(rows: seq<LegacyArchive>, n: nat, migrated: set<int>, before: map<int, NewArchive>,
                     archives: map<int, NewArchive>)
    requires n < |rows| && ArchivesDistinct(rows) && ArchivesDone(rows, n, migrated, before, archives)
    ensures var item := CopyFor(rows[n].specimenId, migrated);
      ArchivesDone(rows, n + 1, migrated, before,
                   if item.None? || rows[n].id in archives then archives
                   else archives[rows[n].id := StoredArchive(ArchiveOf(rows[n], item.value))])
    ensures rows[n].id in archives <==> rows[n].id in before
  {
    var item := CopyFor(rows[n].specimenId, migrated);
    var after := if item.None? || rows[n].id in archives then archives
                 else archives[rows[n].id := StoredArchive(ArchiveOf(rows[n], item.value))];
    forall i | 0 <= i < n ensures rows[i].id != rows[n].id && ArchiveStored(rows[i], migrated, before, after) {
      assert ArchiveStored(rows[i], migrated, before, archives);
    }
    assert ArchiveStored(rows[n], migrated, before, after);
    assert ArchivedIds(rows, n + 1, migrated, before.Keys, after.Keys);
  }

  lemma ArchivesReferToCopies(rows: seq<LegacyArchive>, migrated: set<int>, before: map<int, NewArchive>,
                              archives: map<int, NewArchive>)
    requires ArchivesDone(rows, |rows|, migrated, before, archives)
    requires forall id :: id in before ==> before[id].itemId in migrated
    ensures forall id :: id in archives ==> archives[id].itemId in migrated
  {
    forall id | id in archives ensures archives[id].itemId in migrated {
      if id !in before {
        var i :| 0 <= i < |rows| && rows[i].id == id && CopyFor(rows[i].specimenId, migrated).Some?;
        assert ArchiveStored(rows[i], migrated, before, archives);
      }
    }
  }

  /**
   The archive stage loses rows, although it counts them as migrated, exactly when an archived
   borrow has the id of a returned borrow that is already there.
   */
  lemma {:induction false} ArchiveRowsLostIff(rows: seq<LegacyArchive>, n: nat, migrated: set<int>, before: set<int>)
    requires n <= |rows|
    ensures StoredCount(rows, n, migrated, before) <= ArchivedCount(rows, n, migrated)
    ensures StoredCount(rows, n, migrated, before) == ArchivedCount(rows, n, migrated)
      <==> forall i :: 0 <= i < n && CopyFor(rows[i].specimenId, migrated).Some? ==> rows[i].id !in before
  {
    if n > 0 {
      ArchiveRowsLostIff(rows, n - 1, migrated, before);
    }
  }
}
