/**
 The fines ledger: accrual from rules, payments and waivers on stored rows, and the unpaid total
 that the database computes from the stored status. Amounts are exact decimals.
 */
module FinesLedger {
  import opened Options

  type Timestamp = int

  datatype FineStatus = Pending | Partial | Paid | Waived

  datatype Fine = Fine(
    id: int, loanId: int, userId: int, amount: real, paidAmount: real, createdAt: Timestamp,
    paidAt: Option<Timestamp>, status: FineStatus, notes: Option<string>)

  datatype FineRule = FineRule(mediaType: Option<string>, dailyRate: real, maxAmount: Option<real>, graceDays: int)

  // ── Rows ───────────────────────────────────────────────────────────────────

  /** The row that an INSERT creates; paid amount and status come from the column defaults. */
  function NewFine(id: int, loanId: int, userId: int, amount: real, notes: Option<string>, now: Timestamp): Fine {
    Fine(id, loanId, userId, amount, 0.0, now, None, Pending, notes)
  }

  function Coalesce<T>(o: Option<T>, other: Option<T>): Option<T> {
    if o.Some? then o else other
  }

  function PaidFine(f: Fine, payment: real, notes: Option<string>, now: Timestamp): Fine {
    var total := f.paidAmount + payment;
    f.(paidAmount := total, notes := Coalesce(notes, f.notes),
       paidAt := if total >= f.amount then Some(now) else None,
       status := if total >= f.amount then Paid else Partial)
  }

  function WaivedFine(f: Fine, notes: Option<string>, now: Timestamp): Fine {
    f.(status := Waived, paidAt := Some(now), notes := Coalesce(notes, f.notes))
  }

  /** UPDATE ... WHERE id = $1: rewrites the rows with that id. */
  function UpdateWhere(rows: seq<Fine>, id: int, change: Fine -> Fine): (r: seq<Fine>)
    ensures |r| == |rows|
    ensures forall i :: 0 <= i < |rows| ==> r[i] == if rows[i].id == id then change(rows[i]) else rows[i]
  {
    if rows == [] then []
    else [if rows[0].id == id then change(rows[0]) else rows[0]] + UpdateWhere(rows[1..], id, change)
  }

  predicate HasId(rows: seq<Fine>, id: int) {
    exists f :: f in rows && f.id == id
  }

  /** SELECT SUM(amount - paid_amount) ... AND status IN ('pending', 'partial'), or zero. */
  function SumUnpaid(rows: seq<Fine>, user: int): real {
    if rows == [] then 0.0
    else
      var f := rows[0];
      (if f.userId == user && (f.status == Pending || f.status == Partial) then f.amount - f.paidAmount else 0.0)
      + SumUnpaid(rows[1..], user)
  }

  // ── Accrual ────────────────────────────────────────────────────────────────

  function FindRule(rules: seq<FineRule>, mediaType: Option<string>): Option<FineRule> {
    if rules == [] then None
    else if rules[0].mediaType == mediaType then Some(rules[0])
    else FindRule(rules[1..], mediaType)
  }

  /** The rule of the media type, else the default rule. */
  function RuleFor(rules: seq<FineRule>, mediaType: Option<string>): Option<FineRule> {
    Coalesce(FindRule(rules, mediaType), FindRule(rules, None))
  }

  function EffectiveDays(rule: FineRule, overdueDays: int): int {
    if overdueDays - rule.graceDays > 0 then overdueDays - rule.graceDays else 0
  }

  function Times(rate: real, days: int): real {
    rate * days as real
  }

  function FineAmount(rule: FineRule, overdueDays: int): real {
    var amount := Times(rule.dailyRate, EffectiveDays(rule, overdueDays));
    if rule.maxAmount.Some? && rule.maxAmount.value < amount then rule.maxAmount.value else amount
  }

  // ── Service operations on the table ────────────────────────────────────────

  /** Accrues a fine for an overdue loan; nothing is stored when the amount is not positive. */
  function Accrued(rows: seq<Fine>, id: int, loanId: int, userId: int, rules: seq<FineRule>,
                   mediaType: Option<string>, overdueDays: int, now: Timestamp): (seq<Fine>, Result<Fine>)
  {
    match RuleFor(rules, mediaType)
    case None => (rows, Err(Internal))
    case Some(rule) =>
      var amount := FineAmount(rule, overdueDays);
      if amount <= 0.0 then (rows, Err(BusinessRule))
      else if HasId(rows, id) then (rows, Err(Internal))
      else
        var fine := NewFine(id, loanId, userId, amount, None, now);
        (rows + [fine], Ok(fine))
  }

  /** The first rule in the list for this media type. */
  ghost predicate FirstRule(rules: seq<FineRule>, mediaType: Option<string>, k: int) {
    && 0 <= k < |rules| && rules[k].mediaType == mediaType
    && forall j :: 0 <= j < k ==> rules[j].mediaType != mediaType
  }

  /** The rule that applies: one for the media type, or else the default one. */
  ghost predicate Governs(rules: seq<FineRule>, mediaType: Option<string>, k: int) {
    if exists j :: FirstRule(rules, mediaType, j) then FirstRule(rules, mediaType, k) else FirstRule(rules, None, k)
  }

  lemma {:induction false} FindRuleIff(rules: seq<FineRule>, mediaType: Option<string>)
    ensures match FindRule(rules, mediaType)
      case None => forall j :: 0 <= j < |rules| ==> rules[j].mediaType != mediaType
      case Some(rule) => exists k :: FirstRule(rules, mediaType, k) && rules[k] == rule
  {
    if rules != [] {
      var rest := rules[1..];
      FindRuleIff(rest, mediaType);
      if rules[0].mediaType == mediaType {
        assert FirstRule(rules, mediaType, 0);
      } else if FindRule(rest, mediaType).Some? {
        var k :| FirstRule(rest, mediaType, k) && rest[k] == FindRule(rest, mediaType).value;
        assert forall j :: 0 < j < |rules| ==> rules[j] == rest[j - 1];
        assert rules[k + 1] == rest[k];
        assert FirstRule(rules, mediaType, k + 1);
      } else {
        assert forall j :: 0 < j < |rules| ==> rules[j] == rest[j - 1];
      }
    }
  }

  /** A rule of the media type goes before the default one, whatever their order in the list. */
  lemma RuleForIff(rules: seq<FineRule>, mediaType: Option<string>)
    ensures forall k :: Governs(rules, mediaType, k) ==> RuleFor(rules, mediaType) == Some(rules[k])
    ensures RuleFor(rules, mediaType).None? <==> forall k :: !Governs(rules, mediaType, k)
  {
    FindRuleIff(rules, mediaType);
    FindRuleIff(rules, None);
    forall j, k | FirstRule(rules, mediaType, j) && FirstRule(rules, mediaType, k) ensures j == k {
    }
    forall j, k | FirstRule(rules, None, j) && FirstRule(rules, None, k) ensures j == k {
    }
  }

  /** The daily rate for each day beyond the grace period, up to the cap. */
  ghost predicate Charges(rule: FineRule, overdueDays: int, amount: real) {
    var late := if overdueDays > rule.graceDays then rule.dailyRate * (overdueDays - rule.graceDays) as real else 0.0;
    && amount <= late
    && (rule.maxAmount.Some? ==> amount <= rule.maxAmount.value)
    && (amount == late || rule.maxAmount == Some(amount))
  }

  lemma OneCharge(rule: FineRule, overdueDays: int)
    ensures forall amount :: Charges(rule, overdueDays, amount) <==> amount == FineAmount(rule, overdueDays)
  {
    assert Times(rule.dailyRate, 0) == 0.0;
  }

  /** What accrual does, by the rule that applies and by what it charges. */
  lemma {:induction false} AccrualIsCharged(rows: seq<Fine>, id: int, loanId: int, userId: int, rules: seq<FineRule>,
                                            mediaType: Option<string>, overdueDays: int, now: Timestamp)
    ensures var (after, fine) := Accrued(rows, id, loanId, userId, rules, mediaType, overdueDays, now);
      && ((forall k :: !Governs(rules, mediaType, k)) ==> after == rows && fine == Err(Internal))
      && forall k, amount :: Governs(rules, mediaType, k) && Charges(rules[k], overdueDays, amount) ==>
           if amount <= 0.0 then after == rows && fine == Err(BusinessRule)
           else if HasId(rows, id) then after == rows && fine == Err(Internal)
           else
             var f := Fine(id, loanId, userId, amount, 0.0, now, None, Pending, None);
             after == rows + [f] && fine == Ok(f)
  {
    RuleForIff(rules, mediaType);
    if RuleFor(rules, mediaType).Some? {
      OneCharge(RuleFor(rules, mediaType).value, overdueDays);
    }
  }

  function FineWith(rows: seq<Fine>, id: int): Result<Fine> {
    if rows == [] then Err(NotFound) else if rows[0].id == id then Ok(rows[0]) else FineWith(rows[1..], id)
  }

  function PaidRows(rows: seq<Fine>, id: int, payment: real, notes: Option<string>, now: Timestamp)
    : (seq<Fine>, Result<Fine>)
  {
    if payment <= 0.0 then (rows, Err(Validation))
    else
      var after := UpdateWhere(rows, id, (f: Fine) => PaidFine(f, payment, notes, now));
      (after, FineWith(after, id))
  }

  function WaivedRows(rows: seq<Fine>, id: int, notes: Option<string>, now: Timestamp): (seq<Fine>, Result<Fine>) {
    var after := UpdateWhere(rows, id, (f: Fine) => WaivedFine(f, notes, now));
    (after, FineWith(after, id))
  }

  /** Rows with other ids stay, and who owes what for which loan stays everywhere. */
  ghost predicate OnlyChanges(before: seq<Fine>, after: seq<Fine>, id: int) {
    && |after| == |before|
    && forall i :: 0 <= i < |before| ==>
         && (before[i].id != id ==> after[i] == before[i])
         && after[i].id == before[i].id && after[i].loanId == before[i].loanId
         && after[i].userId == before[i].userId && after[i].amount == before[i].amount
         && after[i].createdAt == before[i].createdAt
  }

  /** The row that RETURNING gives after an update, or that there is none. */
  lemma {:induction false} UpdatedFine(rows: seq<Fine>, id: int, change: Fine -> Fine)
    requires forall f :: change(f).id == f.id
    ensures var after := UpdateWhere(rows, id, change);
      if HasId(rows, id) then
        FineWith(after, id).Ok? && FineWith(after, id).value in after && FineWith(after, id).value.id == id
      else
        FineWith(after, id) == Err(NotFound) && after == rows
  {
    if rows != [] {
      UpdatedFine(rows[1..], id, change);
      assert rows == [rows[0]] + rows[1..];
      assert HasId(rows, id) <==> rows[0].id == id || HasId(rows[1..], id);
    }
  }

  /** The `fines` table behind the fines service. */
  class FinesTable {
    var rows: seq<Fine>

    constructor ()
      ensures rows == []
    {
      rows := [];
    }

    method Accrue(id: int, loanId: int, userId: int, rules: seq<FineRule>, mediaType: Option<string>,
                  overdueDays: int, now: Timestamp)
      returns (fine: Result<Fine>)
      modifies this
      ensures (rows, fine) == Accrued(old(rows), id, loanId, userId, rules, mediaType, overdueDays, now)
    {
      var rule := RuleFor(rules, mediaType);
      if rule.None? {
        return Err(Internal);
      }
      var effectiveDays := overdueDays - rule.value.graceDays;
      if effectiveDays < 0 {
        effectiveDays := 0;
      }
      var amount := Times(rule.value.dailyRate, effectiveDays);
      if rule.value.maxAmount.Some? && rule.value.maxAmount.value < amount {
        amount := rule.value.maxAmount.value;
      }
      if amount <= 0.0 {
        return Err(BusinessRule);
      }
      fine := Create(id, loanId, userId, amount, None, now);
    }

    method Create(id: int, loanId: int, userId: int, amount: real, notes: Option<string>, now: Timestamp)
      returns (fine: Result<Fine>)
      modifies this
      ensures HasId(old(rows), id) ==> rows == old(rows) && fine == Err(Internal)
      ensures !HasId(old(rows), id) ==>
                var f := NewFine(id, loanId, userId, amount, notes, now);
                rows == old(rows) + [f] && fine == Ok(f)
    {
      if HasId(rows, id) {
        return Err(Internal);
      }
      var f := NewFine(id, loanId, userId, amount, notes, now);
      rows := rows + [f];
      return Ok(f);
    }

    method Pay(id: int, payment: real, notes: Option<string>, now: Timestamp) returns (fine: Result<Fine>)
      modifies this
      ensures (rows, fine) == PaidRows(old(rows), id, payment, notes, now)
      ensures payment <= 0.0 ==> fine == Err(Validation) && rows == old(rows)
      ensures payment > 0.0 && !HasId(old(rows), id) ==> fine == Err(NotFound) && rows == old(rows)
      ensures payment > 0.0 && HasId(old(rows), id) ==>
                && OnlyChanges(old(rows), rows, id)
                && fine.Ok? && fine.value in rows && fine.value.id == id
                && (forall i :: 0 <= i < |rows| && rows[i].id == id ==>
                      && rows[i].paidAmount == old(rows)[i].paidAmount + payment
                      && (rows[i].status == Paid <==> rows[i].paidAmount >= rows[i].amount)
                      && (rows[i].status == Partial <==> rows[i].paidAmount < rows[i].amount)
                      && rows[i].paidAt == (if rows[i].status == Paid then Some(now) else None)
                      && rows[i].notes == if notes.None? then old(rows)[i].notes else notes)
    {
      if payment <= 0.0 {
        return Err(Validation);
      }
      UpdatedFine(rows, id, (f: Fine) => PaidFine(f, payment, notes, now));
      rows := UpdateWhere(rows, id, (f: Fine) => PaidFine(f, payment, notes, now));
      fine := FineWith(rows, id);
    }

    method Waive(id: int, notes: Option<string>, now: Timestamp) returns (fine: Result<Fine>)
      modifies this
      ensures (rows, fine) == WaivedRows(old(rows), id, notes, now)
      ensures !HasId(old(rows), id) ==> fine == Err(NotFound) && rows == old(rows)
      ensures HasId(old(rows), id) ==>
                && OnlyChanges(old(rows), rows, id)
                && fine.Ok? && fine.value in rows && fine.value.id == id
                && (forall i :: 0 <= i < |rows| && rows[i].id == id ==>
                      && rows[i].status == Waived && rows[i].paidAt == Some(now)
                      && rows[i].paidAmount == old(rows)[i].paidAmount
                      && rows[i].notes == if notes.None? then old(rows)[i].notes else notes)
    {
      UpdatedFine(rows, id, (f: Fine) => WaivedFine(f, notes, now));
      rows := UpdateWhere(rows, id, (f: Fine) => WaivedFine(f, notes, now));
      fine := FineWith(rows, id);
    }

    /** The unpaid total of a user. */
    method TotalUnpaid(user: int) returns (total: real)
      ensures total == SumUnpaid(rows, user)
    {
      total := 0.0;
      for i := 0 to |rows|
        invariant total + SumUnpaid(rows[i..], user) == SumUnpaid(rows, user)
      {
        assert rows[i..][1..] == rows[i + 1..];
        var f := rows[i];
        if f.userId == user && (f.status == Pending || f.status == Partial) {
          total := total + (f.amount - f.paidAmount);
        }
      }
    }
  }

  // ── Runs ───────────────────────────────────────────────────────────────────

  datatype Operation =
    | AccrueOp(id: int, loanId: int, userId: int, rules: seq<FineRule>, mediaType: Option<string>,
               overdueDays: int, now: Timestamp)
    | PayOp(id: int, payment: real, notes: Option<string>, now: Timestamp)
    | WaiveOp(id: int, notes: Option<string>, now: Timestamp)

  function Step(rows: seq<Fine>, op: Operation): seq<Fine> {
    match op
    case AccrueOp(id, loanId, userId, rules, mediaType, days, now) =>
      Accrued(rows, id, loanId, userId, rules, mediaType, days, now).0
    case PayOp(id, payment, notes, now) => PaidRows(rows, id, payment, notes, now).0
    case WaiveOp(id, notes, now) => WaivedRows(rows, id, notes, now).0
  }

  function Run(ops: seq<Operation>): seq<Fine> {
    if ops == [] then [] else Step(Run(ops[..|ops| - 1]), ops[|ops| - 1])
  }

  /** What fine `id` has received in a run: the accepted payments made after it was created. */
  function Received(ops: seq<Operation>, id: int): real {
    if ops == [] then 0.0
    else
      var before := ops[..|ops| - 1];
      var op := ops[|ops| - 1];
      Received(before, id)
      + if op.PayOp? && op.id == id && op.payment > 0.0 && HasId(Run(before), id) then op.payment else 0.0
  }

  // ── The ledger's invariant ─────────────────────────────────────────────────

  /** The stored status agrees with the amounts. */
  predicate Consistent(f: Fine) {
    && f.amount > 0.0
    && f.paidAmount >= 0.0
    && (f.status == Pending ==> f.paidAmount == 0.0)
    && (f.status == Partial ==> 0.0 < f.paidAmount)
    && (f.status != Waived ==> (f.status == Paid <==> f.paidAmount >= f.amount))
    && (f.paidAt.Some? <==> f.status == Paid || f.status == Waived)
  }

  ghost predicate DistinctIds(rows: seq<Fine>) {
    forall i, j :: 0 <= i < j < |rows| ==> rows[i].id != rows[j].id
  }

  ghost predicate LedgerAgrees(ops: seq<Operation>) {
    var rows := Run(ops);
    && DistinctIds(rows)
    && (forall i :: 0 <= i < |rows| ==> Consistent(rows[i]) && rows[i].paidAmount == Received(ops, rows[i].id))
    && (forall id :: !HasId(rows, id) ==> Received(ops, id) == 0.0)
  }

  /**
   Over every run of the service from the empty table: ids are distinct, each fine's status is the
   one its amounts call for, and its paid amount is the sum of the payments it received.
   */
  lemma {:induction false} LedgerAlwaysAgrees(ops: seq<Operation>)
    ensures LedgerAgrees(ops)
  {
    if ops != [] {
      var before := ops[..|ops| - 1];
      var op := ops[|ops| - 1];
      LedgerAlwaysAgrees(before);
      match op {
        case AccrueOp(_, _, _, _, _, _, _) => AccrueKeepsLedger(before, ops);
        case PayOp(_, _, _, _) => PayKeepsLedger(before, ops);
        case WaiveOp(_, _, _) => WaiveKeepsLedger(before, ops);
      }
    }
  }

  lemma AppendedRow(rows: seq<Fine>, f: Fine)
    requires DistinctIds(rows) && !HasId(rows, f.id)
    ensures DistinctIds(rows + [f])
    ensures forall id :: HasId(rows + [f], id) <==> HasId(rows, id) || id == f.id
  {
    var after := rows + [f];
    forall i | 0 <= i < |rows| ensures rows[i].id != f.id {
      assert rows[i] in rows;
    }
    assert forall g :: g in after <==> g in rows || g == f;
    assert f in after;
  }

  lemma AccrueKeepsLedger(before: seq<Operation>, ops: seq<Operation>)
    requires ops != [] && before == ops[..|ops| - 1] && ops[|ops| - 1].AccrueOp?
    requires LedgerAgrees(before)
    ensures LedgerAgrees(ops)
  {
    var rows, after := Run(before), Run(ops);
    assert forall id :: Received(ops, id) == Received(before, id);
    if after != rows {
      var f := after[|after| - 1];
      assert after == rows + [f] && !HasId(rows, f.id);
      AppendedRow(rows, f);
      assert Received(before, f.id) == 0.0 && Consistent(f) && f.paidAmount == 0.0;
    }
  }

  lemma SameIds(rows: seq<Fine>, after: seq<Fine>)
    requires |rows| == |after| && forall i :: 0 <= i < |rows| ==> rows[i].id == after[i].id
    ensures forall id :: HasId(rows, id) <==> HasId(after, id)
  {
    forall id ensures HasId(rows, id) <==> HasId(after, id) {
      if f :| f in rows && f.id == id {
        var i :| 0 <= i < |rows| && rows[i] == f;
        assert after[i] in after;
      }
      if f :| f in after && f.id == id {
        var i :| 0 <= i < |after| && after[i] == f;
        assert rows[i] in rows;
      }
    }
  }

  lemma PayKeepsLedger(before: seq<Operation>, ops: seq<Operation>)
    requires ops != [] && before == ops[..|ops| - 1] && ops[|ops| - 1].PayOp?
    requires LedgerAgrees(before)
    ensures LedgerAgrees(ops)
  {
    var rows, after := Run(before), Run(ops);
    SameIds(rows, after);
    forall i | 0 <= i < |after|
      ensures Consistent(after[i]) && after[i].paidAmount == Received(ops, after[i].id)
    {
      assert rows[i] in rows;
    }
  }

  lemma WaiveKeepsLedger(before: seq<Operation>, ops: seq<Operation>)
    requires ops != [] && before == ops[..|ops| - 1] && ops[|ops| - 1].WaiveOp?
    requires LedgerAgrees(before)
    ensures LedgerAgrees(ops)
  {
    var rows, after := Run(before), Run(ops);
    SameIds(rows, after);
    assert forall id :: Received(ops, id) == Received(before, id);
  }

  // ── The unpaid total ───────────────────────────────────────────────────────

  /** What a user owes, from the amounts alone: the open part of each fine that is not waived. */
  function Owed(rows: seq<Fine>, user: int): real {
    if rows == [] then 0.0
    else
      var f := rows[0];
      var open := if f.amount - f.paidAmount > 0.0 then f.amount - f.paidAmount else 0.0;
      (if f.userId == user && f.status != Waived then open else 0.0) + Owed(rows[1..], user)
  }

  lemma {:induction false} StatusFilterIsExact(rows: seq<Fine>, user: int)
    requires forall i :: 0 <= i < |rows| ==> Consistent(rows[i])
    ensures SumUnpaid(rows, user) == Owed(rows, user) >= 0.0
  {
    if rows != [] {
      StatusFilterIsExact(rows[1..], user);
    }
  }

  /** After every run the status-filtered sum is what the user owes. */
  lemma UnpaidTotalIsOwed(ops: seq<Operation>, user: int)
    ensures SumUnpaid(Run(ops), user) == Owed(Run(ops), user) >= 0.0
  {
    LedgerAlwaysAgrees(ops);
    StatusFilterIsExact(Run(ops), user);
  }

  /** The open part of a fine: nothing once it is waived or covered. */
  function Open(f: Fine): real {
    if f.status != Waived && f.amount - f.paidAmount > 0.0 then f.amount - f.paidAmount else 0.0
  }

  /** An update of one fine changes what its reader owes by the change of its open part, and no one else. */
  lemma {:induction false} OwedAfterUpdate(rows: seq<Fine>, k: nat, change: Fine -> Fine, user: int)
    requires DistinctIds(rows) && k < |rows| && forall f :: change(f).userId == f.userId
    ensures Owed(UpdateWhere(rows, rows[k].id, change), user)
         == Owed(rows, user) + if rows[k].userId == user then Open(change(rows[k])) - Open(rows[k]) else 0.0
  {
    var rest, id := rows[1..], rows[k].id;
    if k == 0 {
      NotUpdated(rest, id, change);
    } else {
      OwedAfterUpdate(rest, k - 1, change, user);
    }
  }

  lemma {:induction false} NotUpdated(rows: seq<Fine>, id: int, change: Fine -> Fine)
    requires forall i :: 0 <= i < |rows| ==> rows[i].id != id
    ensures UpdateWhere(rows, id, change) == rows
  {
    if rows != [] {
      NotUpdated(rows[1..], id, change);
    }
  }

  /**
   After any run, a payment changes its reader's unpaid total by the change of the fine's open part,
   and no one else's. It lowers the total by what it covers if and only if the fine is not waived, or
   is covered by then.
   */
  lemma PaymentChangesTotal(ops: seq<Operation>, k: nat, payment: real, notes: Option<string>, now: Timestamp, user: int)
    requires k < |Run(ops)| && payment > 0.0
    ensures var f := Run(ops)[k];
      var covered := if payment < Open(f) then payment else Open(f);
      var before, after := SumUnpaid(Run(ops), user), SumUnpaid(Run(ops + [PayOp(f.id, payment, notes, now)]), user);
      && after == before + (if f.userId == user then Open(PaidFine(f, payment, notes, now)) - Open(f) else 0.0)
      && (f.userId == user ==>
            (after == before - covered <==> f.status != Waived || f.paidAmount + payment >= f.amount))
  {
    var rows := Run(ops);
    var op := PayOp(rows[k].id, payment, notes, now);
    LedgerAlwaysAgrees(ops);
    assert (ops + [op])[..|ops|] == ops;
    UnpaidTotalIsOwed(ops, user);
    UnpaidTotalIsOwed(ops + [op], user);
    OwedAfterUpdate(rows, k, (f: Fine) => PaidFine(f, payment, notes, now), user);
  }

  /** A fine of 10 that is waived: nothing is owed, and a payment of 3 makes the reader owe 7. */
  lemma PaymentOnWaivedRaisesTotal(user: int)
    ensures var rule := FineRule(None, 1.0, None, 0);
      var accrue, waive := AccrueOp(1, 1, user, [rule], None, 10, 0), WaiveOp(1, None, 1);
      var pay := PayOp(1, 3.0, None, 2);
      && SumUnpaid(Run([accrue]), user) == 10.0
      && SumUnpaid(Run([accrue, waive]), user) == 0.0
      && SumUnpaid(Run([accrue, waive, pay]), user) == 7.0
  {
    var rule := FineRule(None, 1.0, None, 0);
    var accrue, waive, pay := AccrueOp(1, 1, user, [rule], None, 10, 0), WaiveOp(1, None, 1), PayOp(1, 3.0, None, 2);
    var ops := [accrue, waive, pay];
    assert ops[..2] == [accrue, waive] && [accrue, waive][..1] == [accrue] && [accrue][..0] == [];
    assert FineAmount(rule, 10) == 10.0;
    assert RuleFor([rule], None) == Some(rule);
    var fine := NewFine(1, 1, user, 10.0, None, 0);
    assert Run([accrue]) == [] + [fine] == [fine];
    SingleRow(fine, WaivedFine(fine, None, 1), (f: Fine) => WaivedFine(f, None, 1));
    var waived := WaivedFine(fine, None, 1);
    assert Run([accrue, waive]) == [waived];
    SingleRow(waived, PaidFine(waived, 3.0, None, 2), (f: Fine) => PaidFine(f, 3.0, None, 2));
    assert Run(ops) == [PaidFine(waived, 3.0, None, 2)];
    SingleSum(fine, user);
    SingleSum(waived, user);
    SingleSum(PaidFine(waived, 3.0, None, 2), user);
  }

  lemma SingleRow(before: Fine, after: Fine, change: Fine -> Fine)
    requires change(before) == after
    ensures UpdateWhere([before], before.id, change) == [after]
  {
    assert [before][1..] == [];
  }

  lemma SingleSum(f: Fine, user: int)
    ensures SumUnpaid([f], user)
         == if f.userId == user && (f.status == Pending || f.status == Partial) then f.amount - f.paidAmount else 0.0
  {
    assert [f][1..] == [];
  }

  /** Waiving a fine takes its open part off its reader's unpaid total, and nothing else. */
  lemma WaiverLowersTotal(ops: seq<Operation>, k: nat, notes: Option<string>, now: Timestamp, user: int)
    requires k < |Run(ops)|
    ensures var f := Run(ops)[k];
      SumUnpaid(Run(ops + [WaiveOp(f.id, notes, now)]), user)
      == SumUnpaid(Run(ops), user) - if f.userId == user then Open(f) else 0.0
  {
    var rows := Run(ops);
    var op := WaiveOp(rows[k].id, notes, now);
    LedgerAlwaysAgrees(ops);
    assert (ops + [op])[..|ops|] == ops;
    UnpaidTotalIsOwed(ops, user);
    UnpaidTotalIsOwed(ops + [op], user);
    OwedAfterUpdate(rows, k, (f: Fine) => WaivedFine(f, notes, now), user);
  }

  /** Why accrual must refuse amounts that are not positive: such a row would not be consistent. */
  lemma NewFineConsistentIffPositive(id: int, loanId: int, userId: int, amount: real, notes: Option<string>,
                                     now: Timestamp)
    ensures Consistent(NewFine(id, loanId, userId, amount, notes, now)) <==> amount > 0.0
  {
  }

  /** A payment on a waived fine reopens it, unless the payment completes the amount. */
  lemma {:induction false} PaymentReopensWaivedFine(f: Fine, payment: real, notes: Option<string>, now: Timestamp)
    requires Consistent(f) && f.status == Waived && payment > 0.0
    ensures var g := PaidFine(f, payment, notes, now);
      && Consistent(g) && g.status != Waived
      && (g.status == Partial <==> f.paidAmount + payment < f.amount)
      && SumUnpaid([f], f.userId) == 0.0
      && (g.status == Partial ==> SumUnpaid([g], f.userId) == f.amount - f.paidAmount - payment > 0.0)
  {
    var g := PaidFine(f, payment, notes, now);
    assert [f][1..] == [] && [g][1..] == [];
  }

  /** Accrued amounts stay within the cap, grow with the delay, and are zero within the grace period. */
  lemma {:induction false} AccruedAmountBounds(rule: FineRule, days: int, more: int)
    requires rule.dailyRate >= 0.0 && days <= more
    ensures FineAmount(rule, days) <= FineAmount(rule, more)
    ensures rule.maxAmount.Some? ==> FineAmount(rule, days) <= rule.maxAmount.value
    ensures days <= rule.graceDays ==> FineAmount(rule, days) <= 0.0
  {
    TimesMonotone(rule.dailyRate, EffectiveDays(rule, days), EffectiveDays(rule, more));
    if days <= rule.graceDays {
      assert EffectiveDays(rule, days) == 0 && Times(rule.dailyRate, 0) == 0.0;
    }
  }

  lemma TimesMonotone(rate: real, a: int, b: int)
    requires rate >= 0.0 && a <= b
    ensures Times(rate, a) <= Times(rate, b)
  {
    var gap := (b - a) as real;
    assert b as real == a as real + gap;
    assert rate * gap >= 0.0;
    assert rate * (a as real + gap) == rate * a as real + rate * gap;
  }
}
