/**
 Audit-log queries: the WHERE clause and the list of bound values are built by two separate
 passes over the filters, for the count and for the page.
 */
module AuditQuery {
  import opened Options
  import opened Sql

  type Timestamp = int

  datatype Entry = Entry(
    id: int, eventType: string, outcome: string, userId: Option<int>, entityType: Option<string>,
    entityId: Option<int>, errorCode: Option<string>, createdAt: Timestamp)

  datatype Params = Params(
    eventType: Option<string>, entityType: Option<string>, entityId: Option<int>, userId: Option<int>,
    fromDate: Option<Timestamp>, toDate: Option<Timestamp>, outcome: Option<string>,
    errorCode: Option<string>, page: Option<int>, perPage: Option<int>)

  /** What a filter asks of an entry. A missing column value never meets a filter. */
  predicate Matches(p: Params, e: Entry) {
    && (p.eventType.Some? ==> e.eventType == p.eventType.value)
    && (p.entityType.Some? ==> e.entityType == p.entityType)
    && (p.entityId.Some? ==> e.entityId == p.entityId)
    && (p.userId.Some? ==> e.userId == p.userId)
    && (p.fromDate.Some? ==> e.createdAt >= p.fromDate.value)
    && (p.toDate.Some? ==> e.createdAt <= p.toDate.value)
    && (p.outcome.Some? ==> e.outcome == p.outcome.value)
    && (p.errorCode.Some? ==> e.errorCode == p.errorCode)
  }

  // ── SQL ────────────────────────────────────────────────────────────────────

  datatype Column = EventType | EntityType | EntityId | UserId | CreatedAt | Outcome | ErrorCode

  datatype Operator = Equal | AtLeast | AtMost

  /** `column operator $placeholder`. */
  datatype Condition = Condition(column: Column, op: Operator, placeholder: nat)

  function OptText(o: Option<string>): Value {
    if o.Some? then Text(o.value) else Null
  }

  function OptInt(o: Option<int>): Value {
    if o.Some? then Int(o.value) else Null
  }

  function ColumnValue(e: Entry, c: Column): Value {
    match c
    case EventType => Text(e.eventType)
    case EntityType => OptText(e.entityType)
    case EntityId => OptInt(e.entityId)
    case UserId => OptInt(e.userId)
    case CreatedAt => Time(e.createdAt)
    case Outcome => Text(e.outcome)
    case ErrorCode => OptText(e.errorCode)
  }

  /** The type of the values a column compares with. */
  predicate Comparable(c: Column, v: Value) {
    match c
    case EventType | EntityType | Outcome | ErrorCode => v.Text?
    case EntityId | UserId => v.Int?
    case CreatedAt => v.Time?
  }

  /** Comparison under three-valued logic: a NULL operand does not select the row. */
  predicate Compare(v: Value, op: Operator, w: Value) {
    && v != Null
    && match op
       case Equal => v == w
       case AtLeast => v.Time? && w.Time? && v.at >= w.at
       case AtMost => v.Time? && w.Time? && v.at <= w.at
  }

  /** A statement is accepted when every parameter it names is bound to a value of the right type. */
  predicate WellBound(conditions: seq<Condition>, binds: seq<Value>) {
    forall i :: 0 <= i < |conditions| ==>
      var v := Bound(binds, conditions[i].placeholder);
      v.Some? && Comparable(conditions[i].column, v.value)
  }

  predicate Selected(conditions: seq<Condition>, binds: seq<Value>, e: Entry)
    requires WellBound(conditions, binds)
  {
    forall i :: 0 <= i < |conditions| ==>
      var v := Bound(binds, conditions[i].placeholder).value;
      Compare(ColumnValue(e, conditions[i].column), conditions[i].op, v)
  }

  function Where(rows: seq<Entry>, conditions: seq<Condition>, binds: seq<Value>): seq<Entry>
    requires WellBound(conditions, binds)
  {
    if rows == [] then []
    else (if Selected(conditions, binds, rows[0]) then [rows[0]] else []) + Where(rows[1..], conditions, binds)
  }

  /** ORDER BY created_at DESC; entries of equal time keep the table's order. */
  function NewestFirst(rows: seq<Entry>): (sorted: seq<Entry>)
    ensures |sorted| == |rows|
  {
    if rows == [] then [] else InsertByTime(rows[0], NewestFirst(rows[1..]))
  }

  function InsertByTime(e: Entry, sorted: seq<Entry>): (r: seq<Entry>)
    ensures |r| == |sorted| + 1
  {
    if sorted == [] || e.createdAt >= sorted[0].createdAt then [e] + sorted
    else [sorted[0]] + InsertByTime(e, sorted[1..])
  }

  /** SELECT COUNT(*). */
  function RunCount(rows: seq<Entry>, conditions: seq<Condition>, binds: seq<Value>): Result<nat> {
    if |binds| != |conditions| || !WellBound(conditions, binds) then Err(Internal)
    else Ok(|Where(rows, conditions, binds)|)
  }

  /** SELECT ... LIMIT $limit OFFSET $offset; a negative bound is an error. */
  function RunPage(rows: seq<Entry>, conditions: seq<Condition>, limit: nat, offset: nat, binds: seq<Value>)
    : Result<seq<Entry>>
  {
    if |binds| != |conditions| + 2 || !WellBound(conditions, binds) then Err(Internal)
    else
      match (Bound(binds, limit), Bound(binds, offset))
      case (Some(Int(l)), Some(Int(o))) =>
        if l < 0 || o < 0 then Err(Internal)
        else Ok(Slice(NewestFirst(Where(rows, conditions, binds)), o, l))
      case _ => Err(Internal)
  }

  // ── Building the statement ─────────────────────────────────────────────────

  /** One filter of the request: its column, its comparison and its value, if given. */
  datatype Filter = Filter(column: Column, op: Operator, value: Option<Value>)

  function TextFilter(c: Column, o: Option<string>): Filter {
    Filter(c, Equal, if o.Some? then Some(Text(o.value)) else None)
  }

  function IntFilter(c: Column, o: Option<int>): Filter {
    Filter(c, Equal, if o.Some? then Some(Int(o.value)) else None)
  }

  function TimeFilter(op: Operator, o: Option<Timestamp>): Filter {
    Filter(CreatedAt, op, if o.Some? then Some(Time(o.value)) else None)
  }

  function Filters(p: Params): (fs: seq<Filter>)
    ensures |fs| == 8
  {
    [TextFilter(EventType, p.eventType), TextFilter(EntityType, p.entityType), IntFilter(EntityId, p.entityId),
     IntFilter(UserId, p.userId), TimeFilter(AtLeast, p.fromDate), TimeFilter(AtMost, p.toDate),
     TextFilter(Outcome, p.outcome), TextFilter(ErrorCode, p.errorCode)]
  }

  function ConditionsFrom(fs: seq<Filter>, index: nat): seq<Condition> {
    if fs == [] then []
    else if fs[0].value.Some? then
      [Condition(fs[0].column, fs[0].op, index)] + ConditionsFrom(fs[1..], index + 1)
    else ConditionsFrom(fs[1..], index)
  }

  function BindsOf(fs: seq<Filter>): seq<Value> {
    if fs == [] then []
    else (if fs[0].value.Some? then [fs[0].value.value] else []) + BindsOf(fs[1..])
  }

  lemma {:induction false} FiltersSnoc(fs: seq<Filter>, f: Filter, index: nat)
    ensures BindsOf(fs + [f]) == BindsOf(fs) + if f.value.Some? then [f.value.value] else []
    ensures ConditionsFrom(fs + [f], index) == ConditionsFrom(fs, index)
              + if f.value.Some? then [Condition(f.column, f.op, index + |BindsOf(fs)|)] else []
  {
    if fs == [] {
      assert fs + [f] == [f] && [f][1..] == [];
    } else {
      assert (fs + [f])[1..] == fs[1..] + [f];
      FiltersSnoc(fs[1..], f, if fs[0].value.Some? then index + 1 else index);
    }
  }

  /** What the builder has produced once the first `k` filters are dealt with. */
  ghost predicate Built(conditions: seq<Condition>, bindIdx: nat, fs: seq<Filter>, k: nat)
    requires k <= |fs|
  {
    conditions == ConditionsFrom(fs[..k], 1) && bindIdx == 1 + |BindsOf(fs[..k])|
  }

  /** Appends `column op $bind_idx` and advances the index when the filter is given. */
  method AddCondition(conditions: seq<Condition>, bindIdx: nat, given: bool, column: Column, op: Operator,
                      ghost fs: seq<Filter>, ghost k: nat)
    returns (conditions': seq<Condition>, bindIdx': nat)
    requires k < |fs| && fs[k].column == column && fs[k].op == op && fs[k].value.Some? == given
    requires Built(conditions, bindIdx, fs, k)
    ensures Built(conditions', bindIdx', fs, k + 1)
  {
    FiltersSnoc(fs[..k], fs[k], 1);
    assert fs[..k + 1] == fs[..k] + [fs[k]];
    conditions', bindIdx' := conditions, bindIdx;
    if given {
      conditions' := conditions + [Condition(column, op, bindIdx)];
      bindIdx' := bindIdx + 1;
    }
  }

  /** The conditions on what the entry is about. */
  method AddSubjectConditions(p: Params) returns (conditions: seq<Condition>, bindIdx: nat)
    ensures Built(conditions, bindIdx, Filters(p), 4)
  {
    ghost var fs := Filters(p);
    conditions, bindIdx := [], 1;
    conditions, bindIdx := AddCondition(conditions, bindIdx, p.eventType.Some?, EventType, Equal, fs, 0);
    conditions, bindIdx := AddCondition(conditions, bindIdx, p.entityType.Some?, EntityType, Equal, fs, 1);
    conditions, bindIdx := AddCondition(conditions, bindIdx, p.entityId.Some?, EntityId, Equal, fs, 2);
    conditions, bindIdx := AddCondition(conditions, bindIdx, p.userId.Some?, UserId, Equal, fs, 3);
  }

  /** The first pass: conditions with numbered placeholders. */
  method BuildConditions(p: Params) returns (conditions: seq<Condition>, bindIdx: nat)
    ensures conditions == ConditionsFrom(Filters(p), 1)
    ensures bindIdx == 1 + |BindsOf(Filters(p))|
  {
    ghost var fs := Filters(p);
    conditions, bindIdx := AddSubjectConditions(p);
    conditions, bindIdx := AddCondition(conditions, bindIdx, p.fromDate.Some?, CreatedAt, AtLeast, fs, 4);
    conditions, bindIdx := AddCondition(conditions, bindIdx, p.toDate.Some?, CreatedAt, AtMost, fs, 5);
    conditions, bindIdx := AddCondition(conditions, bindIdx, p.outcome.Some?, Outcome, Equal, fs, 6);
    conditions, bindIdx := AddCondition(conditions, bindIdx, p.errorCode.Some?, ErrorCode, Equal, fs, 7);
    assert fs[..8] == fs;
  }

  /** `query.bind(value)` when the filter is given. */
  method BindOpt(binds: seq<Value>, value: Option<Value>, ghost fs: seq<Filter>, ghost k: nat)
    returns (binds': seq<Value>)
    requires k < |fs| && fs[k].value == value && binds == BindsOf(fs[..k])
    ensures binds' == BindsOf(fs[..k + 1])
  {
    FiltersSnoc(fs[..k], fs[k], 1);
    assert fs[..k + 1] == fs[..k] + [fs[k]];
    binds' := if value.Some? then binds + [value.value] else binds;
  }

  /** The second pass, written out once for the count query and once for the page query. */
  method BindFilters(p: Params) returns (binds: seq<Value>)
    ensures binds == BindsOf(Filters(p))
  {
    ghost var fs := Filters(p);
    binds := [];
    binds := BindOpt(binds, TextFilter(EventType, p.eventType).value, fs, 0);
    binds := BindOpt(binds, TextFilter(EntityType, p.entityType).value, fs, 1);
    binds := BindOpt(binds, IntFilter(EntityId, p.entityId).value, fs, 2);
    binds := BindOpt(binds, IntFilter(UserId, p.userId).value, fs, 3);
    binds := BindOpt(binds, TimeFilter(AtLeast, p.fromDate).value, fs, 4);
    binds := BindOpt(binds, TimeFilter(AtMost, p.toDate).value, fs, 5);
    binds := BindOpt(binds, TextFilter(Outcome, p.outcome).value, fs, 6);
    binds := BindOpt(binds, TextFilter(ErrorCode, p.errorCode).value, fs, 7);
    assert fs[..8] == fs;
  }

  datatype AuditLogPage = AuditLogPage(entries: seq<Entry>, total: nat, page: int, perPage: int)

  /** The entries that meet every given filter. */
  function Matching(rows: seq<Entry>, p: Params): seq<Entry> {
    if rows == [] then []
    else (if Matches(p, rows[0]) then [rows[0]] else []) + Matching(rows[1..], p)
  }

  /** The direct reading of a request: filter, sort, cut out the page. */
  function DirectPage(rows: seq<Entry>, p: Params): AuditLogPage {
    var matching := Matching(rows, p);
    var page, perPage := EffectivePage(p.page), EffectivePerPage(p.perPage);
    AuditLogPage(PageOf(NewestFirst(matching), page, perPage), |matching|, page, perPage)
  }

  /** The offset of a request, before it is cut down to 64 bits. */
  function IntendedOffset(p: Params): (o: int)
    ensures o >= 0
  {
    Offset(EffectivePage(p.page), EffectivePerPage(p.perPage));
    (EffectivePage(p.page) - 1) * EffectivePerPage(p.perPage)
  }

  /** The page and the size that a request asks for, with their defaults and bounds. */
  predicate AsksFor(p: Params, page: int, perPage: int) {
    && (if p.page.Some? && p.page.value >= 1 then page == p.page.value else page == 1)
    && match p.perPage
       case None => perPage == 50
       case Some(n) => if 1 <= n <= 500 then perPage == n else if n < 1 then perPage == 1 else perPage == 500
  }

  /** The rows from position `first` on, `size` of them or as many as there are. */
  ghost predicate IsWindow(entries: seq<Entry>, rows: seq<Entry>, first: nat, size: nat) {
    && |entries| == (if first >= |rows| then 0 else if first + size <= |rows| then size else |rows| - first)
    && forall i :: 0 <= i < |entries| ==> entries[i] == rows[first + i]
  }

  lemma SliceIsWindow(rows: seq<Entry>, first: nat, size: nat)
    ensures IsWindow(Slice(rows, first, size), rows, first, size)
  {
  }

  lemma AsksForEffective(p: Params)
    ensures AsksFor(p, EffectivePage(p.page), EffectivePerPage(p.perPage))
    ensures forall page, perPage :: AsksFor(p, page, perPage) ==>
              page == EffectivePage(p.page) && perPage == EffectivePerPage(p.perPage)
  {
  }

  /** The answer with a given offset is the direct reading if and only if the offset cuts out the same page. */
  lemma {:induction false} AnswerIsDirectIff(rows: seq<Entry>, p: Params, offset: nat)
    requires offset == Wrap64(IntendedOffset(p))
    ensures var size := EffectivePerPage(p.perPage);
      var answer := AuditLogPage(Slice(NewestFirst(Matching(rows, p)), offset, size), |Matching(rows, p)|,
                                 EffectivePage(p.page), size);
      && (IntendedOffset(p) < TWO_63 ==>
            answer == DirectPage(rows, p)
            && IsWindow(answer.entries, NewestFirst(Matching(rows, p)), IntendedOffset(p), size))
      && (|rows| < TWO_63 ==>
            (answer == DirectPage(rows, p) <==> IntendedOffset(p) < TWO_63 || offset >= |Matching(rows, p)|))
  {
    Offset(EffectivePage(p.page), EffectivePerPage(p.perPage));
    MatchingNoLonger(rows, p);
    SliceIsWindow(NewestFirst(Matching(rows, p)), IntendedOffset(p), EffectivePerPage(p.perPage));
    SameSliceIff(NewestFirst(Matching(rows, p)), IntendedOffset(p), offset, EffectivePerPage(p.perPage));
  }

  /**
   Runs the count and the page query over a snapshot of the table, for every choice of filters. If
   the offset fits 64 bits the answer is the direct reading of the request. Otherwise it is that
   exactly when the wrapped offset lies behind the last matching entry, for a table whose size fits
   64 bits.
   */
  method AuditQueryPage(rows: seq<Entry>, p: Params) returns (result: Result<AuditLogPage>)
    ensures IntendedOffset(p) < TWO_63 ==> result == Ok(DirectPage(rows, p))
    ensures |rows| < TWO_63 ==>
              (result == Ok(DirectPage(rows, p))
               <==> IntendedOffset(p) < TWO_63 || Wrap64(IntendedOffset(p)) >= |Matching(rows, p)|)
    ensures result.Err? <==> Wrap64(IntendedOffset(p)) < 0
    ensures result.Ok? ==> AsksFor(p, result.value.page, result.value.perPage) && result.value.total == |Matching(rows, p)|
    ensures forall page, perPage :: AsksFor(p, page, perPage) ==>
              var first := (page - 1) * perPage;
              0 <= first && (first < TWO_63 ==>
                result.Ok? && IsWindow(result.value.entries, NewestFirst(Matching(rows, p)), first, perPage))
  {
    var page, perPage := EffectivePage(p.page), EffectivePerPage(p.perPage);
    var offset := Wrap64((page - 1) * perPage);
    var conditions, bindIdx := BuildConditions(p);

    var cq := BindFilters(p);
    var total := RunCount(rows, conditions, cq); // never an error, by the next line
    FiltersBindTheirOwn(p, cq);

    var dq := BindFilters(p);
    dq := dq + [Int(perPage)] + [Int(offset)];
    var entries := RunPage(rows, conditions, bindIdx, bindIdx + 1, dq);
    FiltersBindTheirOwn(p, dq);
    AsksForEffective(p);
    WhereIsMatching(rows, p, cq);
    WhereIsMatching(rows, p, dq);
    if offset >= 0 {
      AnswerIsDirectIff(rows, p, offset);
    }
    match entries {
      case Err(e) => return Err(e);
      case Ok(es) => return Ok(AuditLogPage(es, total.value, page, perPage));
    }
  }

  lemma {:induction false} MatchingNoLonger(rows: seq<Entry>, p: Params)
    ensures |Matching(rows, p)| <= |rows|
  {
    if rows != [] {
      MatchingNoLonger(rows[1..], p);
    }
  }

  /** A smaller offset gives the same page as one beyond the end exactly when it is beyond the end too. */
  lemma SameSliceIff(rows: seq<Entry>, intended: nat, offset: nat, limit: nat)
    requires limit > 0
    ensures offset == intended ==> Slice(rows, offset, limit) == Slice(rows, intended, limit)
    ensures intended >= |rows| ==> (Slice(rows, offset, limit) == Slice(rows, intended, limit) <==> offset >= |rows|)
  {
  }

  // ── The generated clause means the filters ─────────────────────────────────

  /** The bind list starts with the filters' values, in their order. */
  ghost predicate BindsFilters(binds: seq<Value>, p: Params) {
    BindsOf(Filters(p)) <= binds
  }

  /** A filter, evaluated directly on an entry. */
  predicate Meets(e: Entry, f: Filter) {
    f.value.Some? ==> Compare(ColumnValue(e, f.column), f.op, f.value.value)
  }

  lemma SelectedCons(c: Condition, rest: seq<Condition>, binds: seq<Value>, e: Entry)
    requires WellBound(rest, binds)
    requires Bound(binds, c.placeholder).Some? && Comparable(c.column, Bound(binds, c.placeholder).value)
    ensures WellBound([c] + rest, binds)
    ensures Selected([c] + rest, binds, e)
      <==> Compare(ColumnValue(e, c.column), c.op, Bound(binds, c.placeholder).value) && Selected(rest, binds, e)
  {
    var all := [c] + rest;
    assert forall i :: 0 <= i < |rest| ==> all[i + 1] == rest[i];
    if Selected(all, binds, e) {
      assert all[0] == c;
      forall i | 0 <= i < |rest|
        ensures Compare(ColumnValue(e, rest[i].column), rest[i].op, Bound(binds, rest[i].placeholder).value)
      {
        assert all[i + 1] == rest[i];
      }
    }
  }

  lemma {:induction false} PlaceholdersMeetTheirValues(fs: seq<Filter>, before: seq<Value>, binds: seq<Value>, e: Entry)
    requires before + BindsOf(fs) <= binds
    requires forall i :: 0 <= i < |fs| && fs[i].value.Some? ==> Comparable(fs[i].column, fs[i].value.value)
    ensures WellBound(ConditionsFrom(fs, |before| + 1), binds)
    ensures Selected(ConditionsFrom(fs, |before| + 1), binds, e) <==> forall i :: 0 <= i < |fs| ==> Meets(e, fs[i])
    ensures |ConditionsFrom(fs, |before| + 1)| == |BindsOf(fs)|
  {
    if fs != [] {
      var f := fs[0];
      var conditions := ConditionsFrom(fs, |before| + 1);
      if f.value.Some? {
        var after := before + [f.value.value];
        assert before + BindsOf(fs) == after + BindsOf(fs[1..]);
        PlaceholdersMeetTheirValues(fs[1..], after, binds, e);
        assert Bound(binds, |before| + 1) == Some(f.value.value);
        SelectedCons(Condition(f.column, f.op, |before| + 1), ConditionsFrom(fs[1..], |after| + 1), binds, e);
      } else {
        assert BindsOf(fs) == BindsOf(fs[1..]);
        PlaceholdersMeetTheirValues(fs[1..], before, binds, e);
      }
      assert (forall i :: 0 <= i < |fs| ==> Meets(e, fs[i]))
        <==> Meets(e, f) && forall i :: 0 <= i < |fs[1..]| ==> Meets(e, fs[1..][i]);
    }
  }

  lemma MeetsAllIsMatches(p: Params, e: Entry)
    ensures (forall i :: 0 <= i < 8 ==> Meets(e, Filters(p)[i])) <==> Matches(p, e)
  {
    var fs := Filters(p);
    MeetsText(e, EventType, p.eventType);
    MeetsText(e, EntityType, p.entityType);
    MeetsInt(e, EntityId, p.entityId);
    MeetsInt(e, UserId, p.userId);
    MeetsTime(e, p.fromDate, p.toDate);
    MeetsText(e, Outcome, p.outcome);
    MeetsText(e, ErrorCode, p.errorCode);
    assert (forall i :: 0 <= i < 8 ==> Meets(e, fs[i]))
      <==> Meets(e, fs[0]) && Meets(e, fs[1]) && Meets(e, fs[2]) && Meets(e, fs[3])
           && Meets(e, fs[4]) && Meets(e, fs[5]) && Meets(e, fs[6]) && Meets(e, fs[7]);
  }

  lemma MeetsText(e: Entry, c: Column, o: Option<string>)
    ensures Meets(e, TextFilter(c, o)) <==> (o.Some? ==> ColumnValue(e, c) == Text(o.value))
  {
  }

  lemma MeetsInt(e: Entry, c: Column, o: Option<int>)
    ensures Meets(e, IntFilter(c, o)) <==> (o.Some? ==> ColumnValue(e, c) == Int(o.value))
  {
  }

  lemma MeetsTime(e: Entry, from: Option<Timestamp>, to: Option<Timestamp>)
    ensures Meets(e, TimeFilter(AtLeast, from)) <==> (from.Some? ==> e.createdAt >= from.value)
    ensures Meets(e, TimeFilter(AtMost, to)) <==> (to.Some? ==> e.createdAt <= to.value)
  {
  }

  lemma FiltersBindTheirOwn(p: Params, binds: seq<Value>)
    requires BindsFilters(binds, p)
    ensures WellBound(ConditionsFrom(Filters(p), 1), binds)
    ensures |ConditionsFrom(Filters(p), 1)| == |BindsOf(Filters(p))|
  {
    var any := Entry(0, "", "", None, None, None, None, 0);
    assert [] + BindsOf(Filters(p)) == BindsOf(Filters(p));
    PlaceholdersMeetTheirValues(Filters(p), [], binds, any);
  }

  /**
   For every choice of filters, the generated clause under the positions at which the values are
   bound selects exactly the entries that meet all given filters.
   */
  lemma GeneratedClauseMeansFilters(p: Params, binds: seq<Value>, e: Entry)
    requires BindsFilters(binds, p)
    ensures WellBound(ConditionsFrom(Filters(p), 1), binds)
    ensures Selected(ConditionsFrom(Filters(p), 1), binds, e) <==> Matches(p, e)
  {
    assert [] + BindsOf(Filters(p)) == BindsOf(Filters(p));
    PlaceholdersMeetTheirValues(Filters(p), [], binds, e);
    MeetsAllIsMatches(p, e);
  }

  lemma {:induction false} WhereIsMatching(rows: seq<Entry>, p: Params, binds: seq<Value>)
    requires BindsFilters(binds, p)
    requires WellBound(ConditionsFrom(Filters(p), 1), binds)
    ensures Where(rows, ConditionsFrom(Filters(p), 1), binds) == Matching(rows, p)
  {
    if rows != [] {
      GeneratedClauseMeansFilters(p, binds, rows[0]);
      WhereIsMatching(rows[1..], p, binds);
    }
  }

  // ── Order ──────────────────────────────────────────────────────────────────

  ghost predicate Descending(rows: seq<Entry>) {
    rows == [] || ((forall e :: e in rows[1..] ==> rows[0].createdAt >= e.createdAt) && Descending(rows[1..]))
  }

  lemma {:induction false} InsertKeepsEntries(e: Entry, sorted: seq<Entry>)
    ensures multiset(InsertByTime(e, sorted)) == multiset(sorted) + multiset{e}
  {
    if sorted != [] && e.createdAt < sorted[0].createdAt {
      InsertKeepsEntries(e, sorted[1..]);
      assert sorted == [sorted[0]] + sorted[1..];
    }
  }

  lemma {:induction false} InsertedInOrder(e: Entry, sorted: seq<Entry>)
    requires Descending(sorted)
    ensures Descending(InsertByTime(e, sorted))
  {
    var r := InsertByTime(e, sorted);
    if sorted == [] || e.createdAt >= sorted[0].createdAt {
      assert r[1..] == sorted;
      assert sorted != [] ==> sorted == [sorted[0]] + sorted[1..];
    } else {
      InsertedInOrder(e, sorted[1..]);
      InsertMembers(e, sorted[1..]);
      assert r[1..] == InsertByTime(e, sorted[1..]);
    }
  }

  lemma {:induction false} InsertMembers(e: Entry, sorted: seq<Entry>)
    ensures forall x :: x in InsertByTime(e, sorted) <==> x == e || x in sorted
  {
    if sorted != [] && e.createdAt < sorted[0].createdAt {
      InsertMembers(e, sorted[1..]);
      assert sorted == [sorted[0]] + sorted[1..];
    }
  }

  /** A page is cut from the selected entries in order of time, none lost and none added. */
  lemma {:induction false} NewestFirstSorts(rows: seq<Entry>)
    ensures multiset(NewestFirst(rows)) == multiset(rows)
    ensures Descending(NewestFirst(rows))
  {
    if rows != [] {
      NewestFirstSorts(rows[1..]);
      InsertKeepsEntries(rows[0], NewestFirst(rows[1..]));
      InsertedInOrder(rows[0], NewestFirst(rows[1..]));
      assert rows == [rows[0]] + rows[1..];
    }
  }

  // ── Export ─────────────────────────────────────────────────────────────────

  const EXPORT_LIMIT := 50000

  function ExportParams(from: Option<Timestamp>, to: Option<Timestamp>, eventType: Option<string>): Params {
    Params(eventType, None, None, None, from, to, None, None, None, None)
  }

  function ExportFilters(from: Option<Timestamp>, to: Option<Timestamp>, eventType: Option<string>): seq<Filter> {
    [TimeFilter(AtLeast, from), TimeFilter(AtMost, to), TextFilter(EventType, eventType)]
  }

  /** The export numbers its placeholders from which of the two dates are given. */
  method AuditExport(rows: seq<Entry>, from: Option<Timestamp>, to: Option<Timestamp>, eventType: Option<string>)
    returns (result: Result<seq<Entry>>)
    ensures result == Ok(Slice(NewestFirst(Matching(rows, ExportParams(from, to, eventType))), 0, EXPORT_LIMIT))
    ensures result.Ok? && IsWindow(result.value, NewestFirst(Matching(rows, ExportParams(from, to, eventType))), 0, 50000)
  {
    var conditions: seq<Condition> := [];
    if from.Some? {
      conditions := conditions + [Condition(CreatedAt, AtLeast, 1)];
    }
    if to.Some? {
      conditions := conditions + [Condition(CreatedAt, AtMost, if from.Some? then 2 else 1)];
    }
    if eventType.Some? {
      var idx := (if from.Some? then 1 else 0) + (if to.Some? then 1 else 0) + 1;
      conditions := conditions + [Condition(EventType, Equal, idx)];
    }

    var binds: seq<Value> := [];
    if from.Some? {
      binds := binds + [Time(from.value)];
    }
    if to.Some? {
      binds := binds + [Time(to.value)];
    }
    if eventType.Some? {
      binds := binds + [Text(eventType.value)];
    }

    ghost var fs := ExportFilters(from, to, eventType);
    ExportStatement(from, to, eventType);
    assert binds == BindsOf(fs);
    assert conditions == ConditionsFrom(fs, 1);
    ExportMeansFilters(rows, from, to, eventType);
    return Ok(Slice(NewestFirst(Where(rows, conditions, binds)), 0, EXPORT_LIMIT));
  }

  lemma ExportStatement(from: Option<Timestamp>, to: Option<Timestamp>, eventType: Option<string>)
    ensures var fs := ExportFilters(from, to, eventType);
      && BindsOf(fs) == (if from.Some? then [Time(from.value)] else [])
                        + (if to.Some? then [Time(to.value)] else [])
                        + (if eventType.Some? then [Text(eventType.value)] else [])
      && var f := if from.Some? then 1 else 0;
         var t := if to.Some? then 1 else 0;
         ConditionsFrom(fs, 1) == (if from.Some? then [Condition(CreatedAt, AtLeast, 1)] else [])
                                  + (if to.Some? then [Condition(CreatedAt, AtMost, 1 + f)] else [])
                                  + (if eventType.Some? then [Condition(EventType, Equal, f + t + 1)] else [])
  {
    var fs := ExportFilters(from, to, eventType);
    var none: seq<Filter> := [];
    FiltersSnoc(none, fs[0], 1);
    FiltersSnoc([fs[0]], fs[1], 1);
    FiltersSnoc([fs[0], fs[1]], fs[2], 1);
    assert none + [fs[0]] == [fs[0]] && [fs[0]] + [fs[1]] == [fs[0], fs[1]] && [fs[0], fs[1]] + [fs[2]] == fs;
  }

  /** The export's clause selects exactly the entries that meet its filters. */
  lemma ExportClauseMeansFilters(from: Option<Timestamp>, to: Option<Timestamp>, eventType: Option<string>, e: Entry)
    ensures var fs := ExportFilters(from, to, eventType);
      && WellBound(ConditionsFrom(fs, 1), BindsOf(fs))
      && (Selected(ConditionsFrom(fs, 1), BindsOf(fs), e) <==> Matches(ExportParams(from, to, eventType), e))
  {
    var fs := ExportFilters(from, to, eventType);
    assert [] + BindsOf(fs) == BindsOf(fs);
    PlaceholdersMeetTheirValues(fs, [], BindsOf(fs), e);
    MeetsTime(e, from, to);
    MeetsText(e, EventType, eventType);
    assert (forall i :: 0 <= i < 3 ==> Meets(e, fs[i])) <==> Meets(e, fs[0]) && Meets(e, fs[1]) && Meets(e, fs[2]);
  }

  lemma {:induction false} ExportMeansFilters(rows: seq<Entry>, from: Option<Timestamp>, to: Option<Timestamp>,
                                              eventType: Option<string>)
    ensures var fs := ExportFilters(from, to, eventType);
      && WellBound(ConditionsFrom(fs, 1), BindsOf(fs))
      && Where(rows, ConditionsFrom(fs, 1), BindsOf(fs)) == Matching(rows, ExportParams(from, to, eventType))
  {
    if rows == [] {
      ExportClauseMeansFilters(from, to, eventType, Entry(0, "", "", None, None, None, None, 0));
    } else {
      ExportClauseMeansFilters(from, to, eventType, rows[0]);
      ExportMeansFilters(rows[1..], from, to, eventType);
    }
  }
}
