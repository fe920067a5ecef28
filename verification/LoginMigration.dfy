/**
 Logins in the user migration: users whose logins differ only in case get their id appended.
 Lower-casing is a parameter.
 */
module LoginMigration {
  import opened Options
  import opened Sequences
  import opened Text
  import opened Decimal
  import opened LegacyModel

  datatype LegacyUser = LegacyUser(id: int, login: Option<string>)

  /** The stripped login, or one made from the id. */
  function BaseLogin(u: LegacyUser): string {
    if Stripped(u.login).Some? then Stripped(u.login).value else "user_" + IntToString(u.id)
  }

  /** The login without blanks at its ends, or `user_` and the id if nothing is left of it. */
  ghost predicate LoginRead(u: LegacyUser, login: string) {
    if exists t :: t != "" && u.login.Some? && IsTrimOf(t, u.login.value, IsPythonSpace) then
      IsTrimOf(login, u.login.value, IsPythonSpace)
    else login == "user_" + IntToString(u.id)
  }

  lemma LoginIsRead(u: LegacyUser)
    ensures LoginRead(u, BaseLogin(u))
  {
    if u.login.Some? {
      forall t ensures IsTrimOf(t, u.login.value, IsPythonSpace) <==> t == Strip(u.login.value) {
        TrimIff(t, u.login.value, IsPythonSpace);
      }
    }
  }

  /** A user with its login and the key that ignores case. */
  datatype User = User(id: int, login: string, key: string)

  function Prepared(u: LegacyUser, lower: string -> string): User {
    User(u.id, BaseLogin(u), lower(BaseLogin(u)))
  }

  function Users(rows: seq<LegacyUser>, lower: string -> string): (users: seq<User>)
    ensures |users| == |rows|
    ensures forall i :: 0 <= i < |rows| ==> users[i] == Prepared(rows[i], lower)
  {
    if rows == [] then [] else [Prepared(rows[0], lower)] + Users(rows[1..], lower)
  }

  ghost predicate UsersDistinct(users: seq<User>) {
    forall i, j :: 0 <= i < j < |users| ==> users[i].id != users[j].id
  }

  function WithSuffix(login: string, id: int): string {
    login + "_" + IntToString(id)
  }

  /** Some other user has the same login up to case. */
  predicate Shared(users: seq<User>, i: nat)
    requires i < |users|
  {
    exists j :: 0 <= j < |users| && j != i && users[j].key == users[i].key
  }

  function FinalLogin(users: seq<User>, i: nat): string
    requires i < |users|
  {
    if Shared(users, i) then WithSuffix(users[i].login, users[i].id) else users[i].login
  }

  // ── Distinctness ───────────────────────────────────────────────────────────

  /** How many characters follow the last underscore. */
  function TailLength(s: string): nat {
    if s == [] || s[|s| - 1] == '_' then 0 else 1 + TailLength(s[..|s| - 1])
  }

  lemma {:induction false} TailLengthOf(a: string, d: string)
    requires '_' !in d
    ensures TailLength(a + "_" + d) == |d|
  {
    var s := a + "_" + d;
    if d != [] {
      assert s[..|s| - 1] == a + "_" + d[..|d| - 1];
      TailLengthOf(a, d[..|d| - 1]);
    }
  }

  lemma SuffixesAgree(a: string, d: string, b: string, e: string)
    requires '_' !in d && '_' !in e && a + "_" + d == b + "_" + e
    ensures d == e
  {
    TailLengthOf(a, d);
    TailLengthOf(b, e);
    var s := a + "_" + d;
    assert d == s[|s| - |d|..] && e == (b + "_" + e)[|s| - |d|..];
  }

  /** Suffixed logins are pairwise distinct, across all groups. */
  lemma SuffixedLoginsDistinct(users: seq<User>, i: nat, j: nat)
    requires UsersDistinct(users) && i < |users| && j < |users| && i != j
    requires Shared(users, i) && Shared(users, j)
    ensures FinalLogin(users, i) != FinalLogin(users, j)
  {
    if FinalLogin(users, i) == FinalLogin(users, j) {
      SuffixesAgree(users[i].login, IntToString(users[i].id), users[j].login, IntToString(users[j].id));
      IntToStringInjective(users[i].id, users[j].id);
    }
  }

  /** Keys are the lower-cased logins. */
  ghost predicate Keyed(users: seq<User>, lower: string -> string) {
    forall i :: 0 <= i < |users| ==> users[i].key == lower(users[i].login)
  }

  /** Unsuffixed logins are pairwise distinct even when case is ignored. */
  lemma UnsuffixedLoginsDistinct(users: seq<User>, lower: string -> string, i: nat, j: nat)
    requires Keyed(users, lower) && i < |users| && j < |users| && i != j
    requires !Shared(users, i) && !Shared(users, j)
    ensures lower(FinalLogin(users, i)) != lower(FinalLogin(users, j))
  {
  }

  /** No login that stays as it is equals one that gets a suffix. */
  predicate NoPlainIsSuffixed(users: seq<User>) {
    forall i, j :: 0 <= i < |users| && 0 <= j < |users| && !Shared(users, i) && Shared(users, j) ==>
      users[i].login != WithSuffix(users[j].login, users[j].id)
  }

  /** The final logins of the first `n` users are pairwise distinct. */
  predicate LoginsDistinct(users: seq<User>, n: nat)
    requires n <= |users|
  {
    forall i, j :: 0 <= i < j < n ==> FinalLogin(users, i) != FinalLogin(users, j)
  }

  /** All logins are distinct exactly when no unsuffixed login equals a suffixed one. */
  lemma {:induction false} LoginsDistinctIff(users: seq<User>, lower: string -> string)
    requires UsersDistinct(users) && Keyed(users, lower)
    ensures LoginsDistinct(users, |users|) <==> NoPlainIsSuffixed(users)
  {
    if NoPlainIsSuffixed(users) {
      forall i, j | 0 <= i < j < |users| ensures FinalLogin(users, i) != FinalLogin(users, j) {
        if Shared(users, i) && Shared(users, j) {
          SuffixedLoginsDistinct(users, i, j);
        } else if !Shared(users, i) && !Shared(users, j) {
          UnsuffixedLoginsDistinct(users, lower, i, j);
        }
      }
    } else {
      var i, j :| 0 <= i < |users| && 0 <= j < |users| && !Shared(users, i) && Shared(users, j)
                  && users[i].login == WithSuffix(users[j].login, users[j].id);
      assert FinalLogin(users, i) == FinalLogin(users, j);
    }
  }

  /** Two users called `a`, and a third whose own login is the suffixed one of the second: a collision. */
  lemma {:induction false} SuffixedLoginCanCollide(a: string, first: int, second: int, third: int, lower: string -> string)
    requires a != "" && TrimmedBy(a, IsPythonSpace)
    requires lower(WithSuffix(a, second)) != lower(a)
    ensures var rows := [LegacyUser(first, Some(a)), LegacyUser(second, Some(a)),
                         LegacyUser(third, Some(WithSuffix(a, second)))];
      var users := Users(rows, lower);
      FinalLogin(users, 1) == FinalLogin(users, 2) == WithSuffix(a, second)
  {
    var b := WithSuffix(a, second);
    var digits := IntToString(second);
    assert b[0] == a[0] && b[|b| - 1] == digits[|digits| - 1] && digits[|digits| - 1] in digits;
    TrimByTrims(a, IsPythonSpace);
    TrimByTrims(b, IsPythonSpace);
    var rows := [LegacyUser(first, Some(a)), LegacyUser(second, Some(a)), LegacyUser(third, Some(b))];
    var users := Users(rows, lower);
    assert users[0].login == a && users[1].login == a && users[2].login == b;
    assert users[0].key == lower(a) && users[1].key == lower(a) && users[2].key == lower(b);
    assert Shared(users, 1) && !Shared(users, 2);
  }

  // ── Building the login map ─────────────────────────────────────────────────

  type Entry = (int, string)

  predicate Belongs(users: seq<User>, key: string, i: nat)
    requires i < |users|
  {
    users[i].key == key
  }

  function EntryOf(u: User): Entry {
    (u.id, u.login)
  }

  /** The group of a key among the first `n` users, in their order. */
  function EntriesOf(users: seq<User>, n: nat, key: string): seq<Entry>
    requires n <= |users|
  {
    if n == 0 then []
    else EntriesOf(users, n - 1, key) + if Belongs(users, key, n - 1) then [EntryOf(users[n - 1])] else []
  }

  lemma {:induction false} EntryBelongs(users: seq<User>, n: nat, key: string, e: Entry)
    requires n <= |users|
    ensures e in EntriesOf(users, n, key)
      <==> exists i :: 0 <= i < n && Belongs(users, key, i) && e == EntryOf(users[i])
  {
    if n > 0 {
      EntryBelongs(users, n - 1, key, e);
    }
  }

  /** A group with two different users has at least two entries. */
  lemma {:induction false} LargeGroup(users: seq<User>, n: nat, key: string,
                                      i: nat, j: nat)
    requires i < j < n <= |users| && Belongs(users, key, i) && Belongs(users, key, j)
    ensures |EntriesOf(users, n, key)| >= 2
  {
    if j < n - 1 {
      LargeGroup(users, n - 1, key, i, j);
    } else {
      EntryBelongs(users, n - 1, key, EntryOf(users[i]));
    }
  }

  /** A group to which only one user belongs has one entry. */
  lemma {:induction false} SingleGroup(users: seq<User>, n: nat, key: string, i: nat)
    requires n <= |users| && i < |users|
    requires forall j :: 0 <= j < n && j != i ==> !Belongs(users, key, j)
    requires Belongs(users, key, i)
    ensures |EntriesOf(users, n, key)| == if i < n then 1 else 0
  {
    if n > 0 {
      SingleGroup(users, n - 1, key, i);
    }
  }

  lemma SharedIffLargeGroup(users: seq<User>, i: nat)
    requires i < |users|
    ensures Shared(users, i) <==> |EntriesOf(users, |users|, users[i].key)| != 1
  {
    var key := users[i].key;
    if Shared(users, i) {
      var j :| 0 <= j < |users| && j != i && users[j].key == key;
      LargeGroup(users, |users|, key, if i < j then i else j, if i < j then j else i);
    } else {
      SingleGroup(users, |users|, key, i);
    }
  }

  /** The counting map after the first `n` users: each key with its group, and no other key. */
  ghost predicate Counted(users: seq<User>, n: nat, counts: map<string, seq<Entry>>)
    requires n <= |users|
  {
    && (forall i :: 0 <= i < n ==> users[i].key in counts)
    && (forall k: string :: GroupOf(counts, k) == EntriesOf(users, n, k))
  }

  function GroupOf(counts: map<string, seq<Entry>>, key: string): seq<Entry> {
    if key in counts then counts[key] else []
  }

  lemma NothingCounted(users: seq<User>)
    ensures Counted(users, 0, map[])
  {
  }

  lemma CountStep(users: seq<User>, n: nat, counts: map<string, seq<Entry>>)
    requires n < |users| && Counted(users, n, counts)
    ensures Counted(users, n + 1, counts[users[n].key := GroupOf(counts, users[n].key) + [EntryOf(users[n])]])
  {
    var after := counts[users[n].key := GroupOf(counts, users[n].key) + [EntryOf(users[n])]];
    forall k: string ensures GroupOf(after, k) == EntriesOf(users, n + 1, k) {
      assert GroupOf(counts, k) == EntriesOf(users, n, k);
    }
  }

  method CountLogins(users: seq<User>) returns (counts: map<string, seq<Entry>>)
    ensures Counted(users, |users|, counts)
  {
    counts := map[];
    NothingCounted(users);
    for n := 0 to |users|
      invariant Counted(users, n, counts)
    {
      CountStep(users, n, counts);
      counts := counts[users[n].key := GroupOf(counts, users[n].key) + [EntryOf(users[n])]];
    }
  }

  ghost predicate EntriesDistinct(entries: seq<Entry>) {
    forall i, j :: 0 <= i < j < |entries| ==> entries[i].0 != entries[j].0
  }

  /** What the group's assignment must leave behind. */
  ghost predicate GroupDone(entries: seq<Entry>, before: map<int, string>, after: map<int, string>) {
    && (forall e :: e in entries ==>
          e.0 in after && after[e.0] == if |entries| == 1 then e.1 else WithSuffix(e.1, e.0))
    && (forall id :: id in before && (forall e :: e in entries ==> e.0 != id) ==>
          id in after && after[id] == before[id])
  }

  /** The logins of one group: unchanged if it has one member, else with the id appended. */
  method AssignGroup(unique: map<int, string>, entries: seq<Entry>) returns (unique': map<int, string>)
    requires EntriesDistinct(entries)
    ensures GroupDone(entries, unique, unique')
  {
    if |entries| == 1 {
      assert forall e :: e in entries <==> e == entries[0];
      return unique[entries[0].0 := entries[0].1];
    }
    unique' := unique;
    for i := 0 to |entries|
      invariant forall j :: 0 <= j < i ==>
        entries[j].0 in unique' && unique'[entries[j].0] == WithSuffix(entries[j].1, entries[j].0)
      invariant forall id :: id in unique && (forall e :: e in entries ==> e.0 != id) ==>
        id in unique' && unique'[id] == unique[id]
    {
      assert entries[i] in entries;
      unique' := unique'[entries[i].0 := WithSuffix(entries[i].1, entries[i].0)];
    }
  }

  /** User `i` has the final login. */
  ghost predicate Assigned(users: seq<User>, unique: map<int, string>, i: nat)
    requires i < |users|
  {
    users[i].id in unique && unique[users[i].id] == FinalLogin(users, i)
  }

  ghost predicate AllAssigned(users: seq<User>, unique: map<int, string>) {
    forall i :: 0 <= i < |users| ==> Assigned(users, unique, i)
  }

  /** The users whose group has been dealt with have their final login. */
  ghost predicate AssignedBut(users: seq<User>, unique: map<int, string>,
                              remaining: set<string>) {
    forall i :: 0 <= i < |users| && users[i].key !in remaining ==> Assigned(users, unique, i)
  }

  /** The login map, from the groups in any order: every user gets the final login. */
  method UniqueLogins(rows: seq<LegacyUser>, lower: string -> string) returns (unique: map<int, string>)
    requires UsersDistinct(Users(rows, lower))
    ensures AllAssigned(Users(rows, lower), unique)
  {
    var users := Users(rows, lower);
    var counts := CountLogins(users);
    unique := map[];
    var remaining := counts.Keys;
    while remaining != {}
      invariant remaining <= counts.Keys
      invariant AssignedBut(users, unique, remaining)
      decreases remaining
    {
      var key := AnyOf(remaining);
      GroupIdsDistinct(users, |users|, key);
      ghost var before := unique;
      assert GroupOf(counts, key) == counts[key];
      unique := AssignGroup(unique, counts[key]);
      GroupAssigned(users, key, before, unique, remaining);
      remaining := remaining - {key};
    }
    assert forall i :: 0 <= i < |users| ==> Assigned(users, unique, i);
  }

  lemma {:induction false} GroupIdsDistinct(users: seq<User>, n: nat, key: string)
    requires UsersDistinct(users) && n <= |users|
    ensures EntriesDistinct(EntriesOf(users, n, key))
  {
    if n > 0 {
      GroupIdsDistinct(users, n - 1, key);
      var es := EntriesOf(users, n - 1, key);
      forall i | 0 <= i < |es| ensures es[i].0 != users[n - 1].id {
        assert es[i] in es;
        EntryBelongs(users, n - 1, key, es[i]);
      }
    }
  }

  lemma GroupAssigned(users: seq<User>, key: string,
                      before: map<int, string>, after: map<int, string>, remaining: set<string>)
    requires UsersDistinct(users)
    requires GroupDone(EntriesOf(users, |users|, key), before, after)
    requires AssignedBut(users, before, remaining)
    ensures AssignedBut(users, after, remaining - {key})
  {
    var entries := EntriesOf(users, |users|, key);
    forall i | 0 <= i < |users| && users[i].key !in remaining - {key}
      ensures Assigned(users, after, i)
    {
      if Belongs(users, key, i) {
        EntryBelongs(users, |users|, key, EntryOf(users[i]));
        SharedIffLargeGroup(users, i);
        assert EntryOf(users[i]) in entries;
      } else {
        assert Assigned(users, before, i);
        forall e | e in entries ensures e.0 != users[i].id {
          EntryBelongs(users, |users|, key, e);
        }
      }
    }
  }

  // ── Inserting the users ────────────────────────────────────────────────────

  const LOGIN_WIDTH: nat := 255

  predicate EndsWell(login: string) {
    login != "" && login[|login| - 1] != ' '
  }

  lemma PrintedIdEndsWell(before: string, id: int)
    ensures EndsWell(before + IntToString(id))
  {
    var digits := IntToString(id);
    assert digits[|digits| - 1] in digits && (before + digits)[|before + digits| - 1] == digits[|digits| - 1];
  }

  lemma BaseLoginEndsWell(u: LegacyUser)
    ensures EndsWell(BaseLogin(u))
  {
    if Stripped(u.login).Some? {
      TrimByTwice(u.login.value, IsPythonSpace);
      TrimByTrims(BaseLogin(u), IsPythonSpace);
    } else {
      PrintedIdEndsWell("user_", u.id);
    }
  }

  /** A final login ends with something other than a blank. */
  lemma FinalLoginEnds(rows: seq<LegacyUser>, lower: string -> string, i: nat)
    requires i < |rows|
    ensures EndsWell(FinalLogin(Users(rows, lower), i))
  {
    BaseLoginEndsWell(rows[i]);
    PrintedIdEndsWell(BaseLogin(rows[i]) + "_", rows[i].id);
  }

  /** So it fits its column exactly when it is short enough, and is stored uncut. */
  lemma LoginFitsIff(login: string)
    requires EndsWell(login)
    ensures Fits(Some(login), LOGIN_WIDTH) <==> |login| <= LOGIN_WIDTH
    ensures Fits(Some(login), LOGIN_WIDTH) ==> Cut(Some(login), LOGIN_WIDTH) == Some(login)
  {
  }

  predicate LoginsShort(users: seq<User>, n: nat)
    requires n <= |users|
  {
    forall i :: 0 <= i < n ==> |FinalLogin(users, i)| <= LOGIN_WIDTH
  }

  /** The table holds the first `n` users with their final logins. */
  ghost predicate LoginTable(users: seq<User>, n: nat, table: map<int, string>)
    requires n <= |users|
  {
    && (forall i :: 0 <= i < n ==> users[i].id in table && table[users[i].id] == FinalLogin(users, i))
    && (forall id :: id in table ==> exists i :: 0 <= i < n && users[i].id == id)
  }

  predicate LoginInUse(table: map<int, string>, login: string) {
    exists id :: id in table && table[id] == login
  }

  lemma LoginInUseIff(users: seq<User>, n: nat, table: map<int, string>)
    requires n < |users| && LoginTable(users, n, table) && LoginsDistinct(users, n)
    ensures LoginInUse(table, FinalLogin(users, n)) <==> !LoginsDistinct(users, n + 1)
  {
    if LoginInUse(table, FinalLogin(users, n)) {
      var id :| id in table && table[id] == FinalLogin(users, n);
      var i :| 0 <= i < n && users[i].id == id;
      assert FinalLogin(users, i) == FinalLogin(users, n);
    }
    if !LoginsDistinct(users, n + 1) {
      var i :| 0 <= i < n && FinalLogin(users, i) == FinalLogin(users, n);
      assert table[users[i].id] == FinalLogin(users, n);
    }
  }

  lemma LoginTableStep(users: seq<User>, n: nat, table: map<int, string>)
    requires n < |users| && UsersDistinct(users) && LoginTable(users, n, table)
    ensures LoginTable(users, n + 1, table[users[n].id := FinalLogin(users, n)])
  {
  }

  /** What decides about user `n`. */
  lemma LoginStep(users: seq<User>, n: nat, table: map<int, string>)
    requires n < |users| && UsersDistinct(users) && EndInNoBlank(users)
    requires LoginTable(users, n, table) && LoginsShort(users, n) && LoginsDistinct(users, n)
    ensures var login := FinalLogin(users, n);
      && (AcceptsLogin(table, login) <==> LoginsShort(users, n + 1) && LoginsDistinct(users, n + 1))
      && (AcceptsLogin(table, login) ==>
            LoginTable(users, n + 1, table[users[n].id := Cut(Some(login), LOGIN_WIDTH).value]))
  {
    LoginFitsIff(FinalLogin(users, n));
    LoginInUseIff(users, n, table);
    LoginTableStep(users, n, table);
  }

  ghost predicate EndInNoBlank(users: seq<User>) {
    forall i :: 0 <= i < |users| ==> EndsWell(FinalLogin(users, i))
  }

  lemma LoginsEndInNoBlank(rows: seq<LegacyUser>, lower: string -> string)
    ensures EndInNoBlank(Users(rows, lower))
  {
    var users := Users(rows, lower);
    forall i | 0 <= i < |users| ensures EndsWell(FinalLogin(users, i)) {
      FinalLoginEnds(rows, lower, i);
    }
  }

  /** The width of the login column and its unique constraint. */
  predicate AcceptsLogin(table: map<int, string>, login: string) {
    Fits(Some(login), LOGIN_WIDTH) && !LoginInUse(table, Cut(Some(login), LOGIN_WIDTH).value)
  }

  /** Inserts the users one by one, committed at the end. */
  method InsertUsers(users: seq<User>, unique: map<int, string>) returns (ok: bool, table: map<int, string>)
    requires UsersDistinct(users) && EndInNoBlank(users) && AllAssigned(users, unique)
    ensures ok <==> LoginsShort(users, |users|) && LoginsDistinct(users, |users|)
    ensures ok ==> LoginTable(users, |users|, table)
    ensures !ok ==> table == map[]
  {
    table := map[];
    for n := 0 to |users|
      invariant LoginTable(users, n, table) && LoginsShort(users, n) && LoginsDistinct(users, n)
    {
      assert Assigned(users, unique, n);
      var login := unique[users[n].id];
      LoginStep(users, n, table);
      if !AcceptsLogin(table, login) {
        return false, map[];
      }
      table := table[users[n].id := Cut(Some(login), LOGIN_WIDTH).value];
    }
    ok := true;
  }

  /**
   The stored login of a row: its own, with the id appended if another row's login is the same but
   for case.
   */
  ghost predicate StoredLogin(rows: seq<LegacyUser>, lower: string -> string, i: nat, stored: string)
    requires i < |rows|
  {
    exists login :: LoginRead(rows[i], login)
      && stored == if SharedRow(rows, lower, i, login) then login + "_" + IntToString(rows[i].id) else login
  }

  ghost predicate SharedRow(rows: seq<LegacyUser>, lower: string -> string, i: nat, login: string) {
    exists j, other :: 0 <= j < |rows| && j != i && LoginRead(rows[j], other) && lower(other) == lower(login)
  }

  lemma {:induction false} OneLogin(u: LegacyUser, login: string)
    ensures LoginRead(u, login) <==> login == BaseLogin(u)
  {
    LoginIsRead(u);
    if u.login.Some? {
      TrimIff(login, u.login.value, IsPythonSpace);
      TrimIff(BaseLogin(u), u.login.value, IsPythonSpace);
    }
  }

  lemma {:induction false} FinalLoginIsStored(rows: seq<LegacyUser>, lower: string -> string, i: nat)
    requires i < |rows|
    ensures StoredLogin(rows, lower, i, FinalLogin(Users(rows, lower), i))
  {
    var users := Users(rows, lower);
    var login := BaseLogin(rows[i]);
    forall j, other | 0 <= j < |rows| ensures LoginRead(rows[j], other) <==> other == users[j].login {
      OneLogin(rows[j], other);
    }
    assert SharedRow(rows, lower, i, login) <==> Shared(users, i) by {
      if Shared(users, i) {
        var j :| 0 <= j < |users| && j != i && users[j].key == users[i].key;
        assert LoginRead(rows[j], users[j].login);
      }
    }
    assert LoginRead(rows[i], login);
  }

  lemma {:induction false} LoginsAreStored(rows: seq<LegacyUser>, lower: string -> string, table: map<int, string>)
    ensures LoginTable(Users(rows, lower), |rows|, table) ==>
              && (forall i :: 0 <= i < |rows| ==>
                    rows[i].id in table && StoredLogin(rows, lower, i, table[rows[i].id]))
              && forall id :: id in table ==> exists i :: 0 <= i < |rows| && rows[i].id == id
  {
    var users := Users(rows, lower);
    if LoginTable(users, |rows|, table) {
      forall i | 0 <= i < |rows| ensures rows[i].id in table && StoredLogin(rows, lower, i, table[rows[i].id]) {
        assert users[i].id == rows[i].id;
        FinalLoginIsStored(rows, lower, i);
      }
      forall id | id in table ensures exists i :: 0 <= i < |rows| && rows[i].id == id {
        var i :| 0 <= i < |rows| && users[i].id == id;
        assert rows[i].id == id;
      }
    }
  }

  /**
   The user stage on an empty table. It succeeds if and only if every final login is short enough
   and no login that stays as it is equals one that gets a suffix; otherwise nothing is stored.
   */
  method MigrateLogins(rows: seq<LegacyUser>, lower: string -> string) returns (ok: bool, table: map<int, string>)
    requires UsersDistinct(Users(rows, lower))
    ensures var users := Users(rows, lower);
      && (ok <==> LoginsShort(users, |users|) && NoPlainIsSuffixed(users))
      && (ok ==> LoginTable(users, |users|, table))
    ensures !ok ==> table == map[]
    ensures ok ==> forall i :: 0 <= i < |rows| ==>
                     && rows[i].id in table && |table[rows[i].id]| <= 255
                     && StoredLogin(rows, lower, i, table[rows[i].id])
  {
    var users := Users(rows, lower);
    var unique := UniqueLogins(rows, lower);
    LoginsEndInNoBlank(rows, lower);
    LoginsDistinctIff(users, lower);
    ok, table := InsertUsers(users, unique);
    if ok {
      LoginsAreStored(rows, lower, table);
      forall i | 0 <= i < |rows| ensures |table[rows[i].id]| <= 255 {
        assert users[i].id == rows[i].id;
      }
    }
  }
}
