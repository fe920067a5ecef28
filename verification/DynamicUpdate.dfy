/**
 Partial updates: an UPDATE statement whose SET list names only the supplied columns, with
 numbered placeholders, and a bind list built by a second pass. Used for account types and for
 equipment.
 */
module DynamicUpdate {
  import opened Options
  import opened Sql

  type Row<!C(==)> = map<C, Value>

  /** `column = $placeholder` in a SET list. */
  datatype Assignment<C> = Assignment(column: C, placeholder: nat)

  /** One field of a request: omitted fields leave their column alone. */
  datatype Field<C> = Field(column: C, value: Option<Value>)

  // ── Executing a statement ──────────────────────────────────────────────────

  /** The row after the assignments; none if a placeholder is not bound. */
  function Assigned<C(==)>(row: Row<C>, sets: seq<Assignment<C>>, binds: seq<Value>): Option<Row<C>>
    decreases |sets|
  {
    if sets == [] then Some(row)
    else
      match Bound(binds, sets[0].placeholder)
      case None => None
      case Some(v) => Assigned(row[sets[0].column := v], sets[1..], binds)
  }

  // ── The two passes ─────────────────────────────────────────────────────────

  function SetsFrom<C>(fields: seq<Field<C>>, index: nat): seq<Assignment<C>> {
    if fields == [] then []
    else if fields[0].value.Some? then
      [Assignment(fields[0].column, index)] + SetsFrom(fields[1..], index + 1)
    else SetsFrom(fields[1..], index)
  }

  function BindsOf<C>(fields: seq<Field<C>>): seq<Value> {
    if fields == [] then []
    else (if fields[0].value.Some? then [fields[0].value.value] else []) + BindsOf(fields[1..])
  }

  lemma {:induction false} FieldsSnoc<C>(fields: seq<Field<C>>, f: Field<C>, index: nat)
    ensures BindsOf(fields + [f]) == BindsOf(fields) + if f.value.Some? then [f.value.value] else []
    ensures SetsFrom(fields + [f], index) == SetsFrom(fields, index)
              + if f.value.Some? then [Assignment(f.column, index + |BindsOf(fields)|)] else []
  {
    if fields == [] {
      assert fields + [f] == [f] && [f][1..] == [];
    } else {
      assert (fields + [f])[1..] == fields[1..] + [f];
      FieldsSnoc(fields[1..], f, if fields[0].value.Some? then index + 1 else index);
    }
  }

  /** What the SET list and the placeholder counter are once the first `k` fields are dealt with. */
  ghost predicate SetsBuilt<C>(sets: seq<Assignment<C>>, idx: nat, fields: seq<Field<C>>, k: nat)
    requires k <= |fields|
  {
    sets == SetsFrom(fields[..k], 1) && idx == 1 + |BindsOf(fields[..k])|
  }

  /** `add_opt!` and `add_field!`. */
  method AddOpt<C>(sets: seq<Assignment<C>>, idx: nat, value: Option<Value>, column: C,
                   ghost fields: seq<Field<C>>, ghost k: nat)
    returns (sets': seq<Assignment<C>>, idx': nat)
    requires k < |fields| && fields[k] == Field(column, value) && SetsBuilt(sets, idx, fields, k)
    ensures SetsBuilt(sets', idx', fields, k + 1)
  {
    FieldsSnoc(fields[..k], fields[k], 1);
    assert fields[..k + 1] == fields[..k] + [fields[k]];
    sets', idx' := sets, idx;
    if value.Some? {
      sets' := sets + [Assignment(column, idx)];
      idx' := idx + 1;
    }
  }

  /** `bind_opt!` and `bind_field!`. */
  method BindOpt<C>(binds: seq<Value>, value: Option<Value>, ghost fields: seq<Field<C>>, ghost k: nat)
    returns (binds': seq<Value>)
    requires k < |fields| && fields[k].value == value && binds == BindsOf(fields[..k])
    ensures binds' == BindsOf(fields[..k + 1])
  {
    FieldsSnoc(fields[..k], fields[k], 1);
    assert fields[..k + 1] == fields[..k] + [fields[k]];
    binds' := if value.Some? then binds + [value.value] else binds;
  }

  // ── The statement means the merge ──────────────────────────────────────────

  ghost predicate DistinctColumns<C>(fields: seq<Field<C>>) {
    forall i, j :: 0 <= i < j < |fields| ==> fields[i].column != fields[j].column
  }

  /** The value supplied for a column. */
  function Supplied<C(==)>(fields: seq<Field<C>>, column: C): Option<Value> {
    if fields == [] then None
    else if fields[0].column == column && fields[0].value.Some? then fields[0].value
    else Supplied(fields[1..], column)
  }

  /** The direct merge: supplied columns take the new value, all others keep theirs. */
  function Merged<C(==)>(row: Row<C>, fields: seq<Field<C>>): Row<C> {
    map c | c in row :: if Supplied(fields, c).Some? then Supplied(fields, c).value else row[c]
  }

  lemma {:induction false} SuppliedElsewhere<C>(fields: seq<Field<C>>, column: C)
    requires forall i :: 0 <= i < |fields| ==> fields[i].column != column
    ensures Supplied(fields, column) == None
  {
    if fields != [] {
      SuppliedElsewhere(fields[1..], column);
    }
  }

  /**
   Executing the generated SET list under its positional binds is the merge, whatever fields are
   supplied, and whatever is bound before and after them.
   */
  lemma {:induction false} GeneratedUpdateIsMerge<C>(row: Row<C>, fields: seq<Field<C>>, before: seq<Value>,
                                                     binds: seq<Value>)
    requires DistinctColumns(fields)
    requires forall i :: 0 <= i < |fields| ==> fields[i].column in row
    requires before + BindsOf(fields) <= binds
    ensures Assigned(row, SetsFrom(fields, |before| + 1), binds) == Some(Merged(row, fields))
  {
    if fields == [] {
      assert Merged(row, fields) == row;
    } else {
      var f, rest := fields[0], fields[1..];
      SuppliedElsewhere(rest, f.column);
      assert DistinctColumns(rest);
      if f.value.Some? {
        var v := f.value.value;
        var after := before + [v];
        assert before + BindsOf(fields) == after + BindsOf(rest);
        GeneratedUpdateIsMerge(row[f.column := v], rest, after, binds);
        assert Bound(binds, |before| + 1) == Some(v);
        var sets := SetsFrom(fields, |before| + 1);
        assert sets[0] == Assignment(f.column, |before| + 1) && sets[1..] == SetsFrom(rest, |after| + 1);
        assert Merged(row[f.column := v], rest) == Merged(row, fields);
      } else {
        assert BindsOf(fields) == BindsOf(rest);
        GeneratedUpdateIsMerge(row, rest, before, binds);
        assert Merged(row, rest) == Merged(row, fields);
      }
    }
  }

  /** What the merge does to each column. */
  lemma {:induction false} MergeTouchesSuppliedOnly<C>(row: Row<C>, fields: seq<Field<C>>, k: nat)
    requires DistinctColumns(fields) && k < |fields| && fields[k].column in row
    ensures Merged(row, fields).Keys == row.Keys
    ensures Merged(row, fields)[fields[k].column]
         == if fields[k].value.Some? then fields[k].value.value else row[fields[k].column]
  {
    SuppliedAt(fields, k);
  }

  lemma {:induction false} SuppliedAt<C>(fields: seq<Field<C>>, k: nat)
    requires DistinctColumns(fields) && k < |fields|
    ensures Supplied(fields, fields[k].column) == fields[k].value
  {
    if k == 0 {
      SuppliedElsewhere(fields[1..], fields[0].column);
    } else {
      SuppliedAt(fields[1..], k - 1);
    }
  }
}

/** `account_types_update`: at least one field, and the key bound last. */
module AccountTypes {
  import opened Options
  import opened Sql
  import opened DynamicUpdate

  datatype Column =
    | Name | ItemsRights | UsersRights | LoansRights | ItemsArchiveRights | HoldsRights | SettingsRights | EventsRights

  datatype Update = Update(
    name: Option<string>, itemsRights: Option<string>, usersRights: Option<string>, loansRights: Option<string>,
    itemsArchiveRights: Option<string>, holdsRights: Option<string>, settingsRights: Option<string>,
    eventsRights: Option<string>)

  function OptText(o: Option<string>): Option<Value> {
    if o.Some? then Some(Text(o.value)) else None
  }

  function Fields(d: Update): (fields: seq<Field<Column>>)
    ensures |fields| == 8 && DistinctColumns(fields)
  {
    [Field(Name, OptText(d.name)), Field(ItemsRights, OptText(d.itemsRights)),
     Field(UsersRights, OptText(d.usersRights)), Field(LoansRights, OptText(d.loansRights)),
     Field(ItemsArchiveRights, OptText(d.itemsArchiveRights)), Field(HoldsRights, OptText(d.holdsRights)),
     Field(SettingsRights, OptText(d.settingsRights)), Field(EventsRights, OptText(d.eventsRights))]
  }

  ghost predicate FullRow(row: Row<Column>) {
    forall c: Column :: c in row
  }

  /** The request's value for a column. */
  function Requested(d: Update, c: Column): Option<string> {
    match c
    case Name => d.name
    case ItemsRights => d.itemsRights
    case UsersRights => d.usersRights
    case LoansRights => d.loansRights
    case ItemsArchiveRights => d.itemsArchiveRights
    case HoldsRights => d.holdsRights
    case SettingsRights => d.settingsRights
    case EventsRights => d.eventsRights
  }

  /** Every column of an updated row: the requested value, or the old one. */
  lemma UpdateOfEachColumn(row: Row<Column>, d: Update, c: Column)
    requires FullRow(row)
    ensures FullRow(Merged(row, Fields(d)))
    ensures Merged(row, Fields(d))[c] == if Requested(d, c).Some? then Text(Requested(d, c).value) else row[c]
  {
    var k := match c
      case Name => 0 case ItemsRights => 1 case UsersRights => 2 case LoansRights => 3
      case ItemsArchiveRights => 4 case HoldsRights => 5 case SettingsRights => 6 case EventsRights => 7;
    assert Fields(d)[k] == Field(c, OptText(Requested(d, c)));
    MergeTouchesSuppliedOnly(row, Fields(d), k);
  }

  /** The new value of a column: the supplied one, or the old one if none is. */
  predicate TextOr(o: Option<string>, before: Value, after: Value) {
    after == if o.Some? then Text(o.value) else before
  }

  /** All eight columns of an updated row. */
  ghost predicate RowUpdated(before: Row<Column>, d: Update, after: Row<Column>) {
    && FullRow(before) && FullRow(after)
    && TextOr(d.name, before[Name], after[Name])
    && TextOr(d.itemsRights, before[ItemsRights], after[ItemsRights])
    && TextOr(d.usersRights, before[UsersRights], after[UsersRights])
    && TextOr(d.loansRights, before[LoansRights], after[LoansRights])
    && TextOr(d.itemsArchiveRights, before[ItemsArchiveRights], after[ItemsArchiveRights])
    && TextOr(d.holdsRights, before[HoldsRights], after[HoldsRights])
    && TextOr(d.settingsRights, before[SettingsRights], after[SettingsRights])
    && TextOr(d.eventsRights, before[EventsRights], after[EventsRights])
  }

  lemma UpdatedColumns(row: Row<Column>, d: Update, after: Row<Column>)
    requires FullRow(row) && after == Merged(row, Fields(d))
    ensures FullRow(after) && forall c :: TextOr(Requested(d, c), row[c], after[c])
  {
    forall c: Column ensures c in after && TextOr(Requested(d, c), row[c], after[c]) {
      UpdateOfEachColumn(row, d, c);
    }
  }

  lemma ColumnByColumn(before: Row<Column>, d: Update, after: Row<Column>)
    requires FullRow(before) && FullRow(after)
    requires forall c :: TextOr(Requested(d, c), before[c], after[c])
    ensures RowUpdated(before, d, after)
  {
    assert TextOr(Requested(d, Name), before[Name], after[Name]);
    assert TextOr(Requested(d, ItemsRights), before[ItemsRights], after[ItemsRights]);
    assert TextOr(Requested(d, UsersRights), before[UsersRights], after[UsersRights]);
    assert TextOr(Requested(d, LoansRights), before[LoansRights], after[LoansRights]);
    assert TextOr(Requested(d, ItemsArchiveRights), before[ItemsArchiveRights], after[ItemsArchiveRights]);
    assert TextOr(Requested(d, HoldsRights), before[HoldsRights], after[HoldsRights]);
    assert TextOr(Requested(d, SettingsRights), before[SettingsRights], after[SettingsRights]);
    assert TextOr(Requested(d, EventsRights), before[EventsRights], after[EventsRights]);
  }

  lemma MergedIsUpdated(row: Row<Column>, d: Update)
    requires FullRow(row)
    ensures RowUpdated(row, d, Merged(row, Fields(d)))
  {
    var after := Merged(row, Fields(d));
    UpdatedColumns(row, d, after);
    ColumnByColumn(row, d, after);
  }

  predicate NothingSupplied(d: Update) {
    d == Update(None, None, None, None, None, None, None, None)
  }

  lemma {:induction false} NothingBoundIff(d: Update)
    ensures BindsOf(Fields(d)) == [] <==> NothingSupplied(d)
  {
    NothingBound(Fields(d));
    var fs := Fields(d);
    assert (forall i :: 0 <= i < 8 ==> fs[i].value.None?)
      <==> && fs[0].value.None? && fs[1].value.None? && fs[2].value.None? && fs[3].value.None?
           && fs[4].value.None? && fs[5].value.None? && fs[6].value.None? && fs[7].value.None?;
  }

  lemma {:induction false} NothingBound(fields: seq<Field<Column>>)
    ensures BindsOf(fields) == [] <==> forall i :: 0 <= i < |fields| ==> fields[i].value.None?
  {
    if fields != [] {
      NothingBound(fields[1..]);
      assert forall i :: 0 < i < |fields| ==> fields[i] == fields[1..][i - 1];
    }
  }

  method BuildSets(d: Update) returns (sets: seq<Assignment<Column>>, idx: nat)
    ensures sets == SetsFrom(Fields(d), 1) && idx == 1 + |BindsOf(Fields(d))|
  {
    ghost var fs := Fields(d);
    assert fs[..8] == fs;
    sets, idx := [], 1;
    sets, idx := AddOpt(sets, idx, OptText(d.name), Name, fs, 0);
    sets, idx := AddOpt(sets, idx, OptText(d.itemsRights), ItemsRights, fs, 1);
    sets, idx := AddOpt(sets, idx, OptText(d.usersRights), UsersRights, fs, 2);
    sets, idx := AddOpt(sets, idx, OptText(d.loansRights), LoansRights, fs, 3);
    sets, idx := AddOpt(sets, idx, OptText(d.itemsArchiveRights), ItemsArchiveRights, fs, 4);
    sets, idx := AddOpt(sets, idx, OptText(d.holdsRights), HoldsRights, fs, 5);
    sets, idx := AddOpt(sets, idx, OptText(d.settingsRights), SettingsRights, fs, 6);
    sets, idx := AddOpt(sets, idx, OptText(d.eventsRights), EventsRights, fs, 7);
  }

  /** The first half of the bind list. */
  method BindFirstFields(d: Update) returns (binds: seq<Value>)
    ensures binds == BindsOf(Fields(d)[..4])
  {
    ghost var fs := Fields(d);
    binds := [];
    binds := BindOpt(binds, OptText(d.name), fs, 0);
    binds := BindOpt(binds, OptText(d.itemsRights), fs, 1);
    binds := BindOpt(binds, OptText(d.usersRights), fs, 2);
    binds := BindOpt(binds, OptText(d.loansRights), fs, 3);
  }

  method BindFields(d: Update) returns (binds: seq<Value>)
    ensures binds == BindsOf(Fields(d))
  {
    ghost var fs := Fields(d);
    binds := BindFirstFields(d);
    binds := BindOpt(binds, OptText(d.itemsArchiveRights), fs, 4);
    binds := BindOpt(binds, OptText(d.holdsRights), fs, 5);
    binds := BindOpt(binds, OptText(d.settingsRights), fs, 6);
    binds := BindOpt(binds, OptText(d.eventsRights), fs, 7);
    assert fs[..8] == fs;
  }

  /** UPDATE account_types SET ... WHERE code = $where RETURNING ... */
  function Execute(rows: map<string, Row<Column>>, sets: seq<Assignment<Column>>, whereIdx: nat, binds: seq<Value>)
    : Option<(map<string, Row<Column>>, Option<Row<Column>>)>
  {
    match Bound(binds, whereIdx)
    case Some(Text(code)) =>
      if code !in rows then Some((rows, None))
      else
        (match Assigned(rows[code], sets, binds)
         case None => None
         case Some(row) => Some((rows[code := row], Some(row))))
    case _ => None
  }

  class Table {
    var rows: map<string, Row<Column>>

    ghost predicate Valid()
      reads this
    {
      forall code :: code in rows ==> FullRow(rows[code])
    }

    constructor ()
      ensures Valid() && rows == map[]
    {
      rows := map[];
    }

    method AccountTypesUpdate(code: string, d: Update) returns (result: Result<Row<Column>>)
      requires Valid()
      modifies this
      ensures Valid()
      ensures BindsOf(Fields(d)) == [] ==> result == Err(Validation) && rows == old(rows)
      ensures BindsOf(Fields(d)) != [] && code !in old(rows) ==> result == Err(NotFound) && rows == old(rows)
      ensures BindsOf(Fields(d)) != [] && code in old(rows) ==>
                var merged := Merged(old(rows)[code], Fields(d));
                result == Ok(merged) && rows == old(rows)[code := merged]
      ensures result.Ok? <==> !NothingSupplied(d) && code in old(rows)
      ensures result.Ok? ==> RowUpdated(old(rows)[code], d, result.value) && rows == old(rows)[code := result.value]
      ensures result == Err(Validation) <==> NothingSupplied(d)
    {
      NothingBoundIff(d);
      if code in rows {
        MergedIsUpdated(rows[code], d);
      }
      var sets, idx := BuildSets(d);
      NoSetsIffNoBinds(Fields(d), 1);
      if sets == [] {
        return Err(Validation);
      }
      var binds := BindFields(d);
      binds := binds + [Text(code)];
      result := RunStatement(code, sets, idx, binds, Fields(d));
    }

    /** Runs the statement and takes what it returns. */
    method RunStatement(code: string, sets: seq<Assignment<Column>>, idx: nat, binds: seq<Value>,
                        ghost fs: seq<Field<Column>>)
      returns (result: Result<Row<Column>>)
      requires Valid() && DistinctColumns(fs)
      requires sets == SetsFrom(fs, 1) && idx == 1 + |BindsOf(fs)| && binds == BindsOf(fs) + [Text(code)]
      modifies this
      ensures Valid()
      ensures code !in old(rows) ==> result == Err(NotFound) && rows == old(rows)
      ensures code in old(rows) ==>
                var merged := Merged(old(rows)[code], fs);
                result == Ok(merged) && rows == old(rows)[code := merged]
    {
      StatementIsMerge(rows, code, fs);
      MergedStaysFull(rows, code, fs);
      var outcome := Execute(rows, sets, idx, binds).value;
      rows := outcome.0;
      return match outcome.1 case None => Err(NotFound) case Some(row) => Ok(row);
    }
  }

  lemma MergedStaysFull(rows: map<string, Row<Column>>, code: string, fs: seq<Field<Column>>)
    requires forall c :: c in rows ==> FullRow(rows[c])
    ensures code in rows ==> forall c :: c in rows ==> FullRow(rows[code := Merged(rows[code], fs)][c])
  {
    if code in rows {
      assert Merged(rows[code], fs).Keys == rows[code].Keys;
    }
  }

  /** The whole statement, with the key bound after the supplied values. */
  lemma StatementIsMerge(rows: map<string, Row<Column>>, code: string, fs: seq<Field<Column>>)
    requires forall c :: c in rows ==> FullRow(rows[c])
    requires DistinctColumns(fs)
    ensures Execute(rows, SetsFrom(fs, 1), 1 + |BindsOf(fs)|, BindsOf(fs) + [Text(code)])
         == Some(if code !in rows then (rows, None)
                 else (rows[code := Merged(rows[code], fs)], Some(Merged(rows[code], fs))))
  {
    var binds := BindsOf(fs) + [Text(code)];
    if code in rows {
      assert FullRow(rows[code]);
      assert [] + BindsOf(fs) <= binds;
      GeneratedUpdateIsMerge(rows[code], fs, [], binds);
    }
  }

  lemma {:induction false} NoSetsIffNoBinds(fields: seq<Field<Column>>, index: nat)
    ensures |SetsFrom(fields, index)| == |BindsOf(fields)|
  {
    if fields != [] {
      NoSetsIffNoBinds(fields[1..], if fields[0].value.Some? then index + 1 else index);
    }
  }
}

/** `equipment_update_equipment`: the timestamp is always set, as the first parameter. */
module Equipment {
  import opened Options
  import opened Sql
  import opened DynamicUpdate

  datatype Column = UpdateAt | Name | EquipmentType | HasInternet | IsPublic | Quantity | Status | Notes

  datatype Update = Update(
    name: Option<string>, equipmentType: Option<int>, hasInternet: Option<bool>, isPublic: Option<bool>,
    quantity: Option<int>, status: Option<int>, notes: Option<string>)

  function OptText(o: Option<string>): Option<Value> {
    if o.Some? then Some(Text(o.value)) else None
  }

  function OptInt(o: Option<int>): Option<Value> {
    if o.Some? then Some(Int(o.value)) else None
  }

  function OptBool(o: Option<bool>): Option<Value> {
    if o.Some? then Some(Bool(o.value)) else None
  }

  function Fields(now: int, d: Update): (fields: seq<Field<Column>>)
    ensures |fields| == 8 && DistinctColumns(fields)
  {
    [Field(UpdateAt, Some(Time(now))), Field(Name, OptText(d.name)),
     Field(EquipmentType, OptInt(d.equipmentType)), Field(HasInternet, OptBool(d.hasInternet)),
     Field(IsPublic, OptBool(d.isPublic)), Field(Quantity, OptInt(d.quantity)),
     Field(Status, OptInt(d.status)), Field(Notes, OptText(d.notes))]
  }

  ghost predicate FullRow(row: Row<Column>) {
    forall c: Column :: c in row
  }

  /** The request's value for a column; the timestamp is always part of it. */
  function Requested(now: int, d: Update, c: Column): Option<Value> {
    match c
    case UpdateAt => Some(Time(now))
    case Name => OptText(d.name)
    case EquipmentType => OptInt(d.equipmentType)
    case HasInternet => OptBool(d.hasInternet)
    case IsPublic => OptBool(d.isPublic)
    case Quantity => OptInt(d.quantity)
    case Status => OptInt(d.status)
    case Notes => OptText(d.notes)
  }

  /** Every column of an updated row: the requested value, or the old one. */
  lemma UpdateOfEachColumn(row: Row<Column>, now: int, d: Update, c: Column)
    requires FullRow(row)
    ensures FullRow(Merged(row, Fields(now, d)))
    ensures Merged(row, Fields(now, d))[c] == if Requested(now, d, c).Some? then Requested(now, d, c).value else row[c]
  {
    var k := match c
      case UpdateAt => 0 case Name => 1 case EquipmentType => 2 case HasInternet => 3
      case IsPublic => 4 case Quantity => 5 case Status => 6 case Notes => 7;
    assert Fields(now, d)[k] == Field(c, Requested(now, d, c));
    MergeTouchesSuppliedOnly(row, Fields(now, d), k);
  }

  /** All eight columns of an updated row. */
  ghost predicate RowUpdated(before: Row<Column>, now: int, d: Update, after: Row<Column>) {
    && FullRow(before) && FullRow(after)
    && after[UpdateAt] == Time(now)
    && after[Name] == (if d.name.Some? then Text(d.name.value) else before[Name])
    && after[EquipmentType] == (if d.equipmentType.Some? then Int(d.equipmentType.value) else before[EquipmentType])
    && after[HasInternet] == (if d.hasInternet.Some? then Bool(d.hasInternet.value) else before[HasInternet])
    && after[IsPublic] == (if d.isPublic.Some? then Bool(d.isPublic.value) else before[IsPublic])
    && after[Quantity] == (if d.quantity.Some? then Int(d.quantity.value) else before[Quantity])
    && after[Status] == (if d.status.Some? then Int(d.status.value) else before[Status])
    && after[Notes] == (if d.notes.Some? then Text(d.notes.value) else before[Notes])
  }

  lemma MergedIsUpdated(row: Row<Column>, now: int, d: Update)
    requires FullRow(row)
    ensures RowUpdated(row, now, d, Merged(row, Fields(now, d)))
  {
    forall c: Column
      ensures c in Merged(row, Fields(now, d))
      ensures Merged(row, Fields(now, d))[c] == if Requested(now, d, c).Some? then Requested(now, d, c).value else row[c]
    {
      UpdateOfEachColumn(row, now, d, c);
    }
  }

  method BuildSets(ghost now: int, d: Update) returns (sets: seq<Assignment<Column>>, idx: nat)
    ensures sets == SetsFrom(Fields(now, d), 1)
  {
    ghost var fs := Fields(now, d);
    assert fs[..8] == fs;
    FieldsSnoc([], fs[0], 1);
    assert fs[..1] == [] + [fs[0]];
    sets, idx := [Assignment(UpdateAt, 1)], 2;
    sets, idx := AddOpt(sets, idx, OptText(d.name), Name, fs, 1);
    sets, idx := AddOpt(sets, idx, OptInt(d.equipmentType), EquipmentType, fs, 2);
    sets, idx := AddOpt(sets, idx, OptBool(d.hasInternet), HasInternet, fs, 3);
    sets, idx := AddOpt(sets, idx, OptBool(d.isPublic), IsPublic, fs, 4);
    sets, idx := AddOpt(sets, idx, OptInt(d.quantity), Quantity, fs, 5);
    sets, idx := AddOpt(sets, idx, OptInt(d.status), Status, fs, 6);
    sets, idx := AddOpt(sets, idx, OptText(d.notes), Notes, fs, 7);
  }

  method BindFields(now: int, d: Update) returns (binds: seq<Value>)
    ensures binds == BindsOf(Fields(now, d))
  {
    ghost var fs := Fields(now, d);
    FieldsSnoc([], fs[0], 1);
    assert fs[..1] == [] + [fs[0]];
    binds := [Time(now)];
    binds := BindOpt(binds, OptText(d.name), fs, 1);
    binds := BindOpt(binds, OptInt(d.equipmentType), fs, 2);
    binds := BindOpt(binds, OptBool(d.hasInternet), fs, 3);
    binds := BindOpt(binds, OptBool(d.isPublic), fs, 4);
    binds := BindOpt(binds, OptInt(d.quantity), fs, 5);
    binds := BindOpt(binds, OptInt(d.status), fs, 6);
    binds := BindOpt(binds, OptText(d.notes), fs, 7);
    assert fs[..8] == fs;
  }

  class Table {
    var rows: map<int, Row<Column>>

    ghost predicate Valid()
      reads this
    {
      forall id :: id in rows ==> FullRow(rows[id])
    }

    constructor ()
      ensures Valid() && rows == map[]
    {
      rows := map[];
    }

    /** The id is written into the statement; the timestamp changes even when no field is supplied. */
    method EquipmentUpdate(id: int, d: Update, now: int) returns (result: Result<Row<Column>>)
      requires Valid()
      modifies this
      ensures Valid()
      ensures id !in old(rows) ==> result == Err(NotFound) && rows == old(rows)
      ensures id in old(rows) ==>
                var merged := Merged(old(rows)[id], Fields(now, d));
                result == Ok(merged) && rows == old(rows)[id := merged]
      ensures result.Ok? ==> RowUpdated(old(rows)[id], now, d, result.value) && rows == old(rows)[id := result.value]
    {
      if id in rows {
        MergedIsUpdated(rows[id], now, d);
      }
      var sets, _ := BuildSets(now, d);
      var binds := BindFields(now, d);
      if id !in rows {
        return Err(NotFound);
      }
      ghost var fs := Fields(now, d);
      assert [] + BindsOf(fs) <= binds;
      GeneratedUpdateIsMerge(rows[id], fs, [], binds);
      var row := Assigned(rows[id], sets, binds).value;
      rows := rows[id := row];
      return Ok(row);
    }
  }
}
