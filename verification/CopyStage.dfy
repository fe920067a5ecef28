/** The copy stage of the migration: which specimens the target takes, and what it then holds. */
module CopyStage {
  import opened Options
  import opened LegacyModel
  import opened CopyRules

  // ── Rows ───────────────────────────────────────────────────────────────────

  /** The widths of the columns of `items`. */
  predicate ItemWidths(item: NewItem) {
    Fits(item.barcode, 100) && Fits(item.callNumber, 100)
  }

  /** The foreign keys of `items`. */
  predicate ItemReferences(item: NewItem, biblioIds: set<int>, sources: set<int>) {
    && (item.biblioId.Some? ==> item.biblioId.value in biblioIds)
    && (item.sourceId.Some? ==> item.sourceId.value in sources)
  }

  function StoredItem(item: NewItem): NewItem {
    item.(barcode := Cut(item.barcode, 100), callNumber := Cut(item.callNumber, 100))
  }

  /** The target refuses the copy made of specimen `i`. */
  predicate RejectedSpecimen(rows: seq<LegacySpecimen>, skipped: set<int>, biblioIds: set<int>, sources: set<int>,
                             now: int, i: nat)
    requires i < |rows|
  {
    && !SkippedSpecimen(rows[i], skipped)
    && var item := CopyOf(rows, skipped, i, now);
       !(ItemWidths(item) && ItemReferences(item, biblioIds, sources))
  }

  ghost predicate NoneRejected(rows: seq<LegacySpecimen>, skipped: set<int>, biblioIds: set<int>, sources: set<int>,
                               now: int, n: nat)
    requires n <= |rows|
  {
    forall i :: 0 <= i < n ==> !RejectedSpecimen(rows, skipped, biblioIds, sources, now, i)
  }

  /** Specimen `stop` is the first whose copy the target refuses, if there is one. */
  ghost predicate StopsAtSpecimen(rows: seq<LegacySpecimen>, skipped: set<int>, biblioIds: set<int>,
                                  sources: set<int>, now: int, stop: nat)
  {
    && stop <= |rows|
    && NoneRejected(rows, skipped, biblioIds, sources, now, stop)
    && (stop < |rows| ==> RejectedSpecimen(rows, skipped, biblioIds, sources, now, stop))
  }

  /** Barcodes come stripped, so a copy that fits has its barcode stored as it is. */
  lemma BarcodeIsNotCut(rows: seq<LegacySpecimen>, skipped: set<int>, i: nat, now: int)
    requires i < |rows|
    ensures Fits(FinalBarcode(rows, skipped, i), 100) ==>
              StoredItem(CopyOf(rows, skipped, i, now)).barcode == FinalBarcode(rows, skipped, i)
  {
    if FinalBarcode(rows, skipped, i).Some? {
      StrippedFitsIff(rows[i].identification, 100);
    }
  }

  /**
   When a specimen's copy fits its columns: the barcode it keeps is short enough, whichever column
   it ends in, and the call number fits unless it is given up.
   */
  lemma ItemWidthsIff(rows: seq<LegacySpecimen>, skipped: set<int>, i: nat, now: int)
    requires i < |rows|
    ensures ItemWidths(CopyOf(rows, skipped, i, now))
      <==> && (KeptBarcode(rows, skipped, i).Some? ==> |KeptBarcode(rows, skipped, i).value| <= 100)
           && (!Swaps(rows, skipped, i) ==> Fits(rows[i].cote, 100))
  {
    if KeptBarcode(rows, skipped, i).Some? {
      StrippedFitsIff(rows[i].identification, 100);
    }
  }

  // ── The copy table ─────────────────────────────────────────────────────────

  /** Specimen `i` becomes copy `id`. */
  predicate IsCopy(rows: seq<LegacySpecimen>, i: nat, skipped: set<int>, id: int)
    requires i < |rows|
  {
    !SkippedSpecimen(rows[i], skipped) && rows[i].id == id
  }

  ghost predicate CopyIds(rows: seq<LegacySpecimen>, n: nat, skipped: set<int>, ids: set<int>)
    requires n <= |rows|
  {
    forall id :: id in ids <==> exists i :: 0 <= i < n && IsCopy(rows, i, skipped, id)
  }

  ghost predicate CopyRows(rows: seq<LegacySpecimen>, n: nat, skipped: set<int>, now: int, items: map<int, NewItem>)
    requires n <= |rows|
  {
    forall i :: 0 <= i < n && !SkippedSpecimen(rows[i], skipped) ==>
      rows[i].id in items && items[rows[i].id] == StoredItem(CopyOf(rows, skipped, i, now))
  }

  /** The table holds exactly the copies made of the first `n` specimens. */
  ghost predicate CopyTable(rows: seq<LegacySpecimen>, n: nat, skipped: set<int>, now: int, items: map<int, NewItem>)
    requires n <= |rows|
  {
    CopyIds(rows, n, skipped, items.Keys) && CopyRows(rows, n, skipped, now, items)
  }

  ghost predicate SeenBarcodes(rows: seq<LegacySpecimen>, n: nat, skipped: set<int>, seen: set<string>)
    requires n <= |rows|
  {
    forall b :: b in seen <==> exists i :: 0 <= i < n && Carries(rows, skipped, i, b)
  }

  /** The first `n` specimens are dealt with, and none was refused. */
  ghost predicate CopiesDone(rows: seq<LegacySpecimen>, n: nat, skipped: set<int>, biblioIds: set<int>,
                             sources: set<int>, now: int, items: map<int, NewItem>, seen: set<string>)
    requires n <= |rows|
  {
    && CopyTable(rows, n, skipped, now, items)
    && SeenBarcodes(rows, n, skipped, seen)
    && NoneRejected(rows, skipped, biblioIds, sources, now, n)
  }

  lemma CopyIdsStep(rows: seq<LegacySpecimen>, n: nat, skipped: set<int>, ids: set<int>)
    requires n < |rows| && SpecimensSorted(rows) && CopyIds(rows, n, skipped, ids)
    ensures rows[n].id !in ids
    ensures CopyIds(rows, n + 1, skipped, ids + if SkippedSpecimen(rows[n], skipped) then {} else {rows[n].id})
  {
    var ids' := ids + if SkippedSpecimen(rows[n], skipped) then {} else {rows[n].id};
    forall id ensures id in ids' <==> exists i :: 0 <= i < n + 1 && IsCopy(rows, i, skipped, id) {
      assert IsCopy(rows, n, skipped, id) <==> !SkippedSpecimen(rows[n], skipped) && rows[n].id == id;
    }
  }

  lemma CopyRowsStep(rows: seq<LegacySpecimen>, n: nat, skipped: set<int>, now: int, items: map<int, NewItem>)
    requires n < |rows| && SpecimensSorted(rows) && CopyRows(rows, n, skipped, now, items)
    ensures CopyRows(rows, n + 1, skipped, now, items[rows[n].id := StoredItem(CopyOf(rows, skipped, n, now))])
    ensures SkippedSpecimen(rows[n], skipped) ==> CopyRows(rows, n + 1, skipped, now, items)
  {
    assert forall i :: 0 <= i < n ==> rows[i].id < rows[n].id;
  }

  lemma CopyTableStep(rows: seq<LegacySpecimen>, n: nat, skipped: set<int>, now: int, items: map<int, NewItem>)
    requires n < |rows| && SpecimensSorted(rows) && CopyTable(rows, n, skipped, now, items)
    ensures rows[n].id !in items
    ensures CopyTable(rows, n + 1, skipped, now,
                      if SkippedSpecimen(rows[n], skipped) then items
                      else items[rows[n].id := StoredItem(CopyOf(rows, skipped, n, now))])
  {
    CopyIdsStep(rows, n, skipped, items.Keys);
    CopyRowsStep(rows, n, skipped, now, items);
    if SkippedSpecimen(rows[n], skipped) {
      assert items.Keys + {} == items.Keys;
    } else {
      assert items[rows[n].id := StoredItem(CopyOf(rows, skipped, n, now))].Keys == items.Keys + {rows[n].id};
    }
  }

  lemma SeenBarcodesStep(rows: seq<LegacySpecimen>, n: nat, skipped: set<int>, seen: set<string>)
    requires n < |rows| && SeenBarcodes(rows, n, skipped, seen)
    ensures var b := Stripped(rows[n].identification);
      && (b.Some? ==> (FirstToCarry(rows, skipped, n, b.value) <==> b.value !in seen))
      && SeenBarcodes(rows, n + 1, skipped,
                      if b.Some? && !SkippedSpecimen(rows[n], skipped) then seen + {b.value} else seen)
  {
    var b := Stripped(rows[n].identification);
    var seen' := if b.Some? && !SkippedSpecimen(rows[n], skipped) then seen + {b.value} else seen;
    forall c ensures c in seen' <==> exists i :: 0 <= i < n + 1 && Carries(rows, skipped, i, c) {
      assert Carries(rows, skipped, n, c) <==> !SkippedSpecimen(rows[n], skipped) && b == Some(c);
    }
  }

  predicate BarcodeInUse(items: map<int, NewItem>, barcode: string) {
    exists id :: id in items && items[id].barcode == Some(barcode)
  }

  /** The barcode index never objects: a barcode that is in use has been seen. */
  lemma FreshBarcodeIsFree(rows: seq<LegacySpecimen>, n: nat, skipped: set<int>, biblioIds: set<int>,
                           sources: set<int>, now: int, items: map<int, NewItem>, seen: set<string>)
    requires n < |rows| && CopiesDone(rows, n, skipped, biblioIds, sources, now, items, seen)
    requires !SkippedSpecimen(rows[n], skipped) && FinalBarcode(rows, skipped, n).Some?
    ensures !BarcodeInUse(items, FinalBarcode(rows, skipped, n).value)
  {
    forall id | id in items ensures items[id].barcode != FinalBarcode(rows, skipped, n) {
      var i :| 0 <= i < n && IsCopy(rows, i, skipped, id);
      assert !RejectedSpecimen(rows, skipped, biblioIds, sources, now, i);
      BarcodeIsNotCut(rows, skipped, i, now);
      BarcodesDistinct(rows, skipped, n, i);
    }
  }

  /** Copies name existing biblios and sources, and barcodes are unique in the table. */
  lemma CopiesRefer(rows: seq<LegacySpecimen>, n: nat, skipped: set<int>, biblioIds: set<int>, sources: set<int>,
                    now: int, items: map<int, NewItem>)
    requires n <= |rows| && CopyTable(rows, n, skipped, now, items)
    requires NoneRejected(rows, skipped, biblioIds, sources, now, n)
    ensures forall id :: id in items ==> ItemReferences(items[id], biblioIds, sources)
    ensures forall x, y :: x in items && y in items && x != y && items[x].barcode.Some? ==>
              items[x].barcode != items[y].barcode
  {
    forall id | id in items
      ensures ItemReferences(items[id], biblioIds, sources)
      ensures exists i :: 0 <= i < n && IsCopy(rows, i, skipped, id) && items[id].barcode == FinalBarcode(rows, skipped, i)
    {
      var i :| 0 <= i < n && IsCopy(rows, i, skipped, id);
      assert !RejectedSpecimen(rows, skipped, biblioIds, sources, now, i);
      BarcodeIsNotCut(rows, skipped, i, now);
    }
    forall x, y | x in items && y in items && x != y && items[x].barcode.Some?
      ensures items[x].barcode != items[y].barcode
    {
      var i :| 0 <= i < n && IsCopy(rows, i, skipped, x) && items[x].barcode == FinalBarcode(rows, skipped, i);
      var j :| 0 <= j < n && IsCopy(rows, j, skipped, y) && items[y].barcode == FinalBarcode(rows, skipped, j);
      BarcodesDistinct(rows, skipped, i, j);
    }
  }
}
