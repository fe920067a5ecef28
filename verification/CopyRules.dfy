/**
 What becomes of a legacy specimen, said without the migration's running state: which specimens
 are skipped, which one keeps a barcode, and when barcode and call number change places.
 */
module CopyRules {
  import opened Options
  import opened Text
  import opened LegacyModel

  ghost predicate SpecimensSorted(rows: seq<LegacySpecimen>) {
    forall i, j :: 0 <= i < j < |rows| ==> rows[i].id < rows[j].id
  }

  /** Specimens of a skipped biblio are skipped. */
  predicate SkippedSpecimen(row: LegacySpecimen, skipped: set<int>) {
    row.idItem.Some? && row.idItem.value in skipped
  }

  /** Specimen `i` is migrated and carries barcode `b`. */
  predicate Carries(rows: seq<LegacySpecimen>, skipped: set<int>, i: nat, b: string)
    requires i < |rows|
  {
    !SkippedSpecimen(rows[i], skipped) && Stripped(rows[i].identification) == Some(b)
  }

  /** No migrated specimen before `i` carries `b`. */
  predicate FirstToCarry(rows: seq<LegacySpecimen>, skipped: set<int>, i: nat, b: string)
    requires i < |rows|
  {
    forall j :: 0 <= j < i ==> !Carries(rows, skipped, j, b)
  }

  /** The barcode after duplicates are cleared. */
  function KeptBarcode(rows: seq<LegacySpecimen>, skipped: set<int>, i: nat): Option<string>
    requires i < |rows|
  {
    var b := Stripped(rows[i].identification);
    if b.Some? && FirstToCarry(rows, skipped, i, b.value) then b else None
  }

  /** The call number is one word and the barcode is not. */
  predicate Swaps(rows: seq<LegacySpecimen>, skipped: set<int>, i: nat)
    requires i < |rows|
  {
    IsToken(rows[i].cote) && !IsToken(KeptBarcode(rows, skipped, i))
  }

  function FinalBarcode(rows: seq<LegacySpecimen>, skipped: set<int>, i: nat): Option<string>
    requires i < |rows|
  {
    if Swaps(rows, skipped, i) then None else KeptBarcode(rows, skipped, i)
  }

  function FinalCallNumber(rows: seq<LegacySpecimen>, skipped: set<int>, i: nat): Option<string>
    requires i < |rows|
  {
    if Swaps(rows, skipped, i) then KeptBarcode(rows, skipped, i) else rows[i].cote
  }

  /** An archived specimen always gets a date. */
  function ArchivedAt(row: LegacySpecimen, now: int): Option<int> {
    if row.isArchive == Some(1) && TsToDatetime(row.archiveDate).None? then Some(now)
    else TsToDatetime(row.archiveDate)
  }

  function CopyOf(rows: seq<LegacySpecimen>, skipped: set<int>, i: nat, now: int): NewItem
    requires i < |rows|
  {
    NewItem(rows[i].id, FkId(rows[i].idItem), FkId(rows[i].sourceId), FinalBarcode(rows, skipped, i),
            FinalCallNumber(rows, skipped, i), rows[i].status != Some(110), ArchivedAt(rows[i], now))
  }

  // ── Barcodes ───────────────────────────────────────────────────────────────

  /** No two copies end with the same barcode. */
  lemma BarcodesDistinct(rows: seq<LegacySpecimen>, skipped: set<int>, i: nat, j: nat)
    requires i < |rows| && j < |rows| && i != j
    requires !SkippedSpecimen(rows[i], skipped) && !SkippedSpecimen(rows[j], skipped)
    requires FinalBarcode(rows, skipped, i).Some?
    ensures FinalBarcode(rows, skipped, i) != FinalBarcode(rows, skipped, j)
  {
    var b := FinalBarcode(rows, skipped, i).value;
    assert Carries(rows, skipped, i, b);
    if FinalBarcode(rows, skipped, j) == Some(b) {
      assert Carries(rows, skipped, j, b);
    }
  }

  /** Copy `j` exists and has barcode `b`. */
  predicate EndsWith(rows: seq<LegacySpecimen>, skipped: set<int>, j: nat, b: string)
    requires j < |rows|
  {
    !SkippedSpecimen(rows[j], skipped) && FinalBarcode(rows, skipped, j) == Some(b)
  }

  function LowestCarrier(rows: seq<LegacySpecimen>, skipped: set<int>, b: string, from: nat): (k: nat)
    requires from < |rows| && exists i :: from <= i < |rows| && Carries(rows, skipped, i, b)
    ensures from <= k < |rows| && Carries(rows, skipped, k, b)
    ensures forall j :: from <= j < k ==> !Carries(rows, skipped, j, b)
    decreases |rows| - from
  {
    if Carries(rows, skipped, from, b) then from else LowestCarrier(rows, skipped, b, from + 1)
  }

  lemma StrippedIsTrimmed(s: Option<string>)
    requires Stripped(s).Some?
    ensures Strip(Stripped(s).value) == Stripped(s).value != ""
  {
    TrimByTwice(s.value, IsPythonSpace);
  }

  /**
   A barcode without spaces that some migrated specimen carries ends on exactly one copy: the one
   with the lowest specimen id.
   */
  lemma TokenBarcodeEndsOnLowest(rows: seq<LegacySpecimen>, skipped: set<int>, i: nat, b: string)
    requires SpecimensSorted(rows) && i < |rows| && Carries(rows, skipped, i, b) && !HasSpace(b)
    ensures exists k :: 0 <= k < |rows| && Carries(rows, skipped, k, b) && FinalBarcode(rows, skipped, k) == Some(b)
              && (forall j :: 0 <= j < |rows| && Carries(rows, skipped, j, b) ==> rows[k].id <= rows[j].id)
              && (forall j :: 0 <= j < |rows| && EndsWith(rows, skipped, j, b) ==> j == k)
  {
    var k := LowestCarrier(rows, skipped, b, 0);
    StrippedIsTrimmed(rows[k].identification);
    assert FirstToCarry(rows, skipped, k, b);
    assert KeptBarcode(rows, skipped, k) == Some(b) && IsToken(Some(b));
    assert FinalBarcode(rows, skipped, k) == Some(b);
    forall j | 0 <= j < |rows| && EndsWith(rows, skipped, j, b) ensures j == k {
      if j != k {
        BarcodesDistinct(rows, skipped, j, k);
      }
    }
  }

  /**
   Exactly when a carried barcode is lost altogether: it has a space and the first specimen that
   carries it has a one-word call number.
   */
  lemma BarcodeLostIff(rows: seq<LegacySpecimen>, skipped: set<int>, i: nat, b: string)
    requires i < |rows| && Carries(rows, skipped, i, b)
    ensures (forall j :: 0 <= j < |rows| ==> !EndsWith(rows, skipped, j, b))
      <==> HasSpace(b) && IsToken(rows[LowestCarrier(rows, skipped, b, 0)].cote)
  {
    var k := LowestCarrier(rows, skipped, b, 0);
    StrippedIsTrimmed(rows[k].identification);
    assert FirstToCarry(rows, skipped, k, b) && KeptBarcode(rows, skipped, k) == Some(b);
    assert IsToken(Some(b)) <==> !HasSpace(b);
    assert EndsWith(rows, skipped, k, b) <==> !(HasSpace(b) && IsToken(rows[k].cote));
    forall j | 0 <= j < |rows| && EndsWith(rows, skipped, j, b) ensures j == k {
      assert Carries(rows, skipped, j, b) && FirstToCarry(rows, skipped, j, b);
    }
  }

  // ── Call numbers ───────────────────────────────────────────────────────────

  /** A call number survives exactly when the exchange with the barcode does not take place. */
  lemma CallNumberKeptIff(rows: seq<LegacySpecimen>, skipped: set<int>, i: nat)
    requires i < |rows|
    ensures FinalCallNumber(rows, skipped, i) == rows[i].cote <==> !Swaps(rows, skipped, i)
    ensures Swaps(rows, skipped, i) ==> FinalBarcode(rows, skipped, i) == None
  {
  }

  /** A specimen without barcode and with a one-word call number ends with neither. */
  lemma CallNumberLost(rows: seq<LegacySpecimen>, skipped: set<int>, i: nat)
    requires i < |rows| && Stripped(rows[i].identification) == None && IsToken(rows[i].cote)
    ensures FinalCallNumber(rows, skipped, i) == None && FinalBarcode(rows, skipped, i) == None
  {
  }
}
