/**
 Loan-closure mail after an inventory: rows are grouped by reader, and each reader with an
 address gets one message that lists all of that reader's loans.
 */
module InventoryEmail {
  import opened Options
  import opened Sequences
  import opened Text
  import opened EmailTemplates
  import opened PlaceholderSafety
  import HtmlEscape

  datatype ClosureRow = ClosureRow(
    itemId: int, barcode: Option<string>, biblioTitle: Option<string>, loanId: int, userId: int,
    email: Option<string>, firstname: Option<string>, lastname: Option<string>, language: Option<string>)

  datatype Mail = Mail(userId: int, to: string, message: Message, loanIds: seq<int>)

  /**
   What the mail services answer when a reader's turn comes: the template for a language, and whether
   a message to an address is accepted.
   */
  datatype Services = Services(
    template: (int, Option<string>) -> Result<EmailTemplate>, accepts: (int, string, Message) -> bool)

  // ── One message ────────────────────────────────────────────────────────────

  function FormatItemLine(row: ClosureRow): string {
    var title := if row.biblioTitle.Some? then row.biblioTitle.value else "(unknown title)";
    if row.barcode.Some? && row.barcode.value != "" then "- " + title + " (barcode: " + row.barcode.value + ")"
    else "- " + title
  }

  /** A line names the title, and the barcode if there is one that is not empty. */
  lemma ItemLine(row: ClosureRow, title: string)
    requires if row.biblioTitle.None? then title == "(unknown title)" else row.biblioTitle == Some(title)
    ensures row.barcode.None? || row.barcode == Some("") ==> FormatItemLine(row) == "- " + title
    ensures row.barcode.Some? && |row.barcode.value| > 0 ==>
              FormatItemLine(row) == "- " + title + " (barcode: " + row.barcode.value + ")"
  {
  }

  function HtmlItem(row: ClosureRow): string {
    "<li>" + HtmlEscape.Escape(FormatItemLine(row)) + "</li>"
  }

  function OrEmpty(o: Option<string>): string {
    if o.Some? then o.value else ""
  }

  function LoanId(row: ClosureRow): int {
    row.loanId
  }

  function Variables(session: string, rows: seq<ClosureRow>): seq<Variable>
    requires rows != []
  {
    [("firstname", OrEmpty(rows[0].firstname)), ("lastname", OrEmpty(rows[0].lastname)),
     ("session_name", session),
     ("items_list", Join(Map(rows, FormatItemLine), "\n")),
     ("items_list_html", "<ul>" + Join(Map(rows, HtmlItem), "") + "</ul>")]
  }

  /** The trimmed address of a reader's first row, if it is not blank. */
  function Address(rows: seq<ClosureRow>): Option<string>
    requires rows != []
  {
    if rows[0].email.None? || Trim(rows[0].email.value) == "" then None else Some(Trim(rows[0].email.value))
  }

  datatype Delivery = NoAddress | Failed(to: string) | Queued(mail: Mail)

  /** What happens to one reader's group. */
  function Deliver(services: Services, session: string, rows: seq<ClosureRow>): Delivery
    requires rows != []
  {
    match Address(rows)
    case None => NoAddress
    case Some(to) =>
      match services.template(rows[0].userId, rows[0].language)
      case Err(_) => Failed(to)
      case Ok(template) =>
        var message := Substitute(template, Variables(session, rows));
        if services.accepts(rows[0].userId, to, message) then
          Queued(Mail(rows[0].userId, to, message, Map(rows, LoanId)))
        else Failed(to)
  }

  // ── Grouping ───────────────────────────────────────────────────────────────

  /** The rows of one reader, in their order. */
  function RowsOf(rows: seq<ClosureRow>, user: int): seq<ClosureRow> {
    if rows == [] then []
    else (if rows[0].userId == user then [rows[0]] else []) + RowsOf(rows[1..], user)
  }

  function Readers(rows: seq<ClosureRow>): set<int> {
    set r | r in rows :: r.userId
  }

  lemma {:induction false} RowsOfSnoc(rows: seq<ClosureRow>, row: ClosureRow, user: int)
    ensures RowsOf(rows + [row], user) == RowsOf(rows, user) + if row.userId == user then [row] else []
  {
    if rows == [] {
      assert rows + [row] == [row] && [row][1..] == [];
    } else {
      assert (rows + [row])[1..] == rows[1..] + [row];
      RowsOfSnoc(rows[1..], row, user);
      ConcatAssociative(if rows[0].userId == user then [rows[0]] else [], RowsOf(rows[1..], user),
                        if row.userId == user then [row] else []);
    }
  }

  /** Every row is in the group of its reader as often as it was given, and in no other group. */
  lemma {:induction false} EveryRowInOneGroup(rows: seq<ClosureRow>, user: int, row: ClosureRow)
    ensures multiset(RowsOf(rows, user))[row] == if row.userId == user then multiset(rows)[row] else 0
    ensures RowsOf(rows, user) != [] <==> user in Readers(rows)
  {
    if rows != [] {
      EveryRowInOneGroup(rows[1..], user, row);
      assert rows == [rows[0]] + rows[1..];
      assert user in Readers(rows) <==> rows[0].userId == user || user in Readers(rows[1..]);
    }
  }

  lemma {:induction false} RowsOfReader(rows: seq<ClosureRow>, user: int)
    ensures forall r :: r in RowsOf(rows, user) ==> r.userId == user
    ensures RowsOf(rows, user) != [] <==> user in Readers(rows)
  {
    if rows != [] {
      RowsOfReader(rows[1..], user);
      assert rows == [rows[0]] + rows[1..];
      assert user in Readers(rows) <==> rows[0].userId == user || user in Readers(rows[1..]);
    }
  }

  method GroupByUser(rows: seq<ClosureRow>) returns (byUser: map<int, seq<ClosureRow>>)
    ensures byUser.Keys == Readers(rows)
    ensures forall u :: u in byUser ==> byUser[u] == RowsOf(rows, u) != []
  {
    byUser := map[];
    for i := 0 to |rows|
      invariant byUser.Keys == Readers(rows[..i])
      invariant forall u :: u in byUser ==> byUser[u] == RowsOf(rows[..i], u)
    {
      var row := rows[i];
      assert rows[..i + 1] == rows[..i] + [row];
      forall u ensures RowsOf(rows[..i + 1], u) == RowsOf(rows[..i], u) + if row.userId == u then [row] else [] {
        RowsOfSnoc(rows[..i], row, u);
      }
      if row.userId !in byUser {
        RowsOfReader(rows[..i], row.userId);
        byUser := byUser[row.userId := [row]];
      } else {
        byUser := byUser[row.userId := byUser[row.userId] + [row]];
      }
    }
    assert rows[..|rows|] == rows;
    forall u | u in byUser ensures RowsOf(rows, u) != [] {
      RowsOfReader(rows, u);
    }
  }

  // ── The notification loop ──────────────────────────────────────────────────

  /** What should happen to each group. */
  ghost function Deliveries(byUser: map<int, seq<ClosureRow>>, services: Services, session: string)
    : (o: map<int, Delivery>)
    requires forall u :: u in byUser ==> byUser[u] != []
    ensures o.Keys == byUser.Keys
  {
    map u | u in byUser :: Deliver(services, session, byUser[u])
  }

  /** The groups of all readers. */
  ghost function Groups(rows: seq<ClosureRow>): (byUser: map<int, seq<ClosureRow>>)
    ensures byUser.Keys == Readers(rows)
    ensures forall u :: u in byUser ==> byUser[u] == RowsOf(rows, u) != []
  {
    assert forall u :: u in Readers(rows) ==> RowsOf(rows, u) != [] by {
      forall u | u in Readers(rows) ensures RowsOf(rows, u) != [] {
        RowsOfReader(rows, u);
      }
    }
    map u | u in Readers(rows) :: RowsOf(rows, u)
  }

  ghost function Outcomes(rows: seq<ClosureRow>, services: Services, session: string): (o: map<int, Delivery>)
    ensures o.Keys == Readers(rows)
  {
    Deliveries(Groups(rows), services, session)
  }

  ghost function QueuedReaders(outcomes: map<int, Delivery>): set<int> {
    set u | u in outcomes && outcomes[u].Queued?
  }

  ghost function FailedReaders(outcomes: map<int, Delivery>): set<int> {
    set u | u in outcomes && outcomes[u].Failed?
  }

  ghost function UnreachableReaders(outcomes: map<int, Delivery>): set<int> {
    set u | u in outcomes && outcomes[u].NoAddress?
  }

  /** The messages are exactly those of the readers that are to get one, each once. */
  ghost predicate MailsOf(outcomes: map<int, Delivery>, queued: seq<(int, Mail)>) {
    && (forall m :: m in queued ==> m.0 in outcomes && outcomes[m.0] == Queued(m.1))
    && (forall u :: u in QueuedReaders(outcomes) ==> (u, outcomes[u].mail) in queued)
    && |queued| == |QueuedReaders(outcomes)|
  }

  /** The errors are exactly those of the readers that could not be written to, each once. */
  ghost predicate ErrorsOf(outcomes: map<int, Delivery>, errors: seq<(int, string)>) {
    && (forall e :: e in errors ==> e.0 in outcomes && outcomes[e.0] == Failed(e.1))
    && (forall u :: u in FailedReaders(outcomes) ==> (u, outcomes[u].to) in errors)
    && |errors| == |FailedReaders(outcomes)|
  }

  lemma MailsOneMore(done: map<int, Delivery>, user: int, d: Delivery, queued: seq<(int, Mail)>)
    requires user !in done && MailsOf(done, queued)
    ensures MailsOf(done[user := d], if d.Queued? then queued + [(user, d.mail)] else queued)
  {
    assert QueuedReaders(done[user := d])
        == if d.Queued? then QueuedReaders(done) + {user} else QueuedReaders(done);
  }

  lemma ErrorsOneMore(done: map<int, Delivery>, user: int, d: Delivery, errors: seq<(int, string)>)
    requires user !in done && ErrorsOf(done, errors)
    ensures ErrorsOf(done[user := d], if d.Failed? then errors + [(user, d.to)] else errors)
  {
    assert FailedReaders(done[user := d])
        == if d.Failed? then FailedReaders(done) + {user} else FailedReaders(done);
  }

  lemma EveryReaderOnce(outcomes: map<int, Delivery>)
    ensures |QueuedReaders(outcomes)| + |FailedReaders(outcomes)| + |UnreachableReaders(outcomes)| == |outcomes.Keys|
  {
    var q, f, n := QueuedReaders(outcomes), FailedReaders(outcomes), UnreachableReaders(outcomes);
    assert q + f + n == outcomes.Keys && q !! f && (q + f) !! n;
  }

  lemma {:induction false} LoanIdsInOrder(rows: seq<ClosureRow>)
    ensures |Map(rows, LoanId)| == |rows|
    ensures forall i :: 0 <= i < |rows| ==> Map(rows, LoanId)[i] == rows[i].loanId
  {
    if rows != [] {
      LoanIdsInOrder(rows[1..]);
    }
  }

  /** Composes and offers the message of one group. */
  method DeliverTo(services: Services, session: string, userRows: seq<ClosureRow>) returns (d: Delivery)
    requires userRows != []
    ensures d == Deliver(services, session, userRows)
    ensures d.NoAddress? <==> userRows[0].email.None? || Trim(userRows[0].email.value) == ""
    ensures d.Queued? ==>
              && userRows[0].email.Some? && d.mail.to == Trim(userRows[0].email.value) != ""
              && services.template(userRows[0].userId, userRows[0].language).Ok?
              && services.accepts(userRows[0].userId, d.mail.to, d.mail.message)
              && |d.mail.loanIds| == |userRows|
              && forall i :: 0 <= i < |userRows| ==> d.mail.loanIds[i] == userRows[i].loanId
  {
    LoanIdsInOrder(userRows);
    match Address(userRows) {
      case None => return NoAddress;
      case Some(to) =>
        match services.template(userRows[0].userId, userRows[0].language) {
          case Err(_) => return Failed(to);
          case Ok(template) =>
            var message := Substitute(template, Variables(session, userRows));
            if services.accepts(userRows[0].userId, to, message) {
              return Queued(Mail(userRows[0].userId, to, message, Map(userRows, LoanId)));
            }
            return Failed(to);
        }
    }
  }

  /** Books the outcome of one more reader. */
  method Book(user: int, outcome: Delivery, errors: seq<(int, string)>, queued: seq<(int, Mail)>,
              ghost done: map<int, Delivery>)
    returns (errors': seq<(int, string)>, queued': seq<(int, Mail)>)
    requires user !in done && MailsOf(done, queued) && ErrorsOf(done, errors)
    ensures MailsOf(done[user := outcome], queued') && ErrorsOf(done[user := outcome], errors')
  {
    errors', queued' := errors, queued;
    MailsOneMore(done, user, outcome, queued);
    ErrorsOneMore(done, user, outcome, errors);
    match outcome {
      case NoAddress =>
      case Failed(to) =>
        errors' := errors + [(user, to)];
      case Queued(mail) =>
        queued' := queued + [(user, mail)];
    }
  }

  lemma OneMoreDone(outcomes: map<int, Delivery>, remaining: set<int>, user: int)
    requires user in remaining && user in outcomes
    ensures user !in outcomes - remaining
    ensures outcomes - (remaining - {user}) == (outcomes - remaining)[user := outcomes[user]]
  {
  }

  /** The loop over the groups, whose order is not specified. */
  method DeliverAll(services: Services, session: string, byUser: map<int, seq<ClosureRow>>)
    returns (errors: seq<(int, string)>, queued: seq<(int, Mail)>)
    requires forall u :: u in byUser ==> byUser[u] != []
    ensures MailsOf(Deliveries(byUser, services, session), queued)
    ensures ErrorsOf(Deliveries(byUser, services, session), errors)
  {
    errors, queued := [], [];
    var remaining := byUser.Keys;
    ghost var outcomes := Deliveries(byUser, services, session);
    ghost var done: map<int, Delivery> := map[];
    while remaining != {}
      invariant remaining <= byUser.Keys && done == outcomes - remaining
      invariant MailsOf(done, queued) && ErrorsOf(done, errors)
      decreases remaining
    {
      var user := AnyOf(remaining);
      OneMoreDone(outcomes, remaining, user);
      remaining := remaining - {user};
      var outcome := DeliverTo(services, session, byUser[user]);
      errors, queued := Book(user, outcome, errors, queued, done);
      done := done[user := outcome];
    }
    assert done == outcomes;
  }

  /**
   Sends one message per reader. Every reader is counted once: as sent, as an error, or as a
   reader without an address; each queued message is exactly the one its reader should get.
   */
  method SendLoanClosureNotifications(services: Services, session: string, rows: seq<ClosureRow>)
    returns (sent: nat, errors: seq<(int, string)>, queued: seq<(int, Mail)>)
    ensures MailsOf(Outcomes(rows, services, session), queued)
    ensures ErrorsOf(Outcomes(rows, services, session), errors)
    ensures sent == |queued|
    ensures sent + |errors| + |UnreachableReaders(Outcomes(rows, services, session))| == |Readers(rows)|
  {
    var byUser := GroupByUser(rows);
    assert byUser == Groups(rows);
    errors, queued := DeliverAll(services, session, byUser);
    sent := |queued|;
    EveryReaderOnce(Outcomes(rows, services, session));
  }

  /** A queued message goes to its reader's address and lists exactly that reader's loans, in order. */
  lemma {:induction false} MailListsReadersLoans(rows: seq<ClosureRow>, services: Services, session: string, user: int)
    requires user in Readers(rows)
    ensures var o := Outcomes(rows, services, session)[user];
      o.Queued? ==>
        && RowsOf(rows, user) != []
        && o.mail.userId == user
        && o.mail.loanIds == Map(RowsOf(rows, user), LoanId)
        && Address(RowsOf(rows, user)) == Some(o.mail.to)
  {
    var group := Groups(rows)[user];
    RowsOfReader(rows, user);
    assert group[0] in RowsOf(rows, user);
  }

  // ── Messages and their templates ───────────────────────────────────────────

  lemma {:induction false} BraceInJoin(parts: seq<string>, sep: string)
    requires '{' !in sep
    ensures '{' in Join(parts, sep) <==> exists p :: p in parts && '{' in p
  {
    if parts != [] {
      BraceInJoin(parts[1..], sep);
      assert parts == [parts[0]] + parts[1..];
    }
  }

  lemma {:induction false} LinesOfRows(rows: seq<ClosureRow>)
    ensures forall line :: line in Map(rows, FormatItemLine) <==> exists r :: r in rows && FormatItemLine(r) == line
  {
    if rows != [] {
      LinesOfRows(rows[1..]);
      assert rows == [rows[0]] + rows[1..];
      assert Map(rows, FormatItemLine) == [FormatItemLine(rows[0])] + Map(rows[1..], FormatItemLine);
    }
  }

  /** Names, session and item lines have no opening brace, so no value can be taken for a placeholder. */
  ghost predicate BraceFreeData(session: string, rows: seq<ClosureRow>)
    requires rows != []
  {
    && '{' !in OrEmpty(rows[0].firstname) && '{' !in OrEmpty(rows[0].lastname) && '{' !in session
    && forall r :: r in rows ==> '{' !in FormatItemLine(r)
  }

  lemma BraceInItemsList(rows: seq<ClosureRow>)
    ensures '{' in Join(Map(rows, FormatItemLine), "\n") <==> exists r :: r in rows && '{' in FormatItemLine(r)
  {
    LinesOfRows(rows);
    BraceInJoin(Map(rows, FormatItemLine), "\n");
    if r :| r in rows && '{' in FormatItemLine(r) {
      assert FormatItemLine(r) in Map(rows, FormatItemLine);
    }
  }

  lemma PlainFive(k: seq<string>, v: seq<string>)
    requires |k| == |v| == 5 && forall i :: 0 <= i < 5 ==> BraceFree(k[i])
    ensures PlainVariables([(k[0], v[0]), (k[1], v[1]), (k[2], v[2]), (k[3], v[3]), (k[4], v[4])])
      <==> '{' !in v[0] && '{' !in v[1] && '{' !in v[2] && '{' !in v[3]
  {
    var vars := [(k[0], v[0]), (k[1], v[1]), (k[2], v[2]), (k[3], v[3]), (k[4], v[4])];
    assert vars[0].1 == v[0] && vars[1].1 == v[1] && vars[2].1 == v[2] && vars[3].1 == v[3];
  }

  lemma NamesAreBraceFree()
    ensures BraceFree("firstname") && BraceFree("lastname") && BraceFree("session_name")
    ensures BraceFree("items_list") && BraceFree("items_list_html")
  {
  }

  lemma VariablesArePlain(session: string, rows: seq<ClosureRow>)
    requires rows != []
    ensures PlainVariables(Variables(session, rows)) <==> BraceFreeData(session, rows)
  {
    var vars := Variables(session, rows);
    BraceInItemsList(rows);
    NamesAreBraceFree();
    PlainFive([vars[0].0, vars[1].0, vars[2].0, vars[3].0, vars[4].0],
             [vars[0].1, vars[1].1, vars[2].1, vars[3].1, vars[4].1]);
  }

  /** Data without opening braces are safe in every template whose literals do no harm. */
  lemma BraceFreeDataIsSafe(session: string, rows: seq<ClosureRow>, braced: set<string>)
    requires rows != [] && BraceFreeData(session, rows) && HarmlessLiterals(Variables(session, rows), braced)
    ensures SafeVariables(Variables(session, rows), braced)
  {
    VariablesArePlain(session, rows);
    PlainIsSafe(Variables(session, rows), braced);
  }

  /**
   With safe data the message of a group is its template with all placeholders filled at once: no
   reader's title or name is ever expanded as a placeholder. Without an HTML part, the HTML is the
   filled plain text with its line ends marked.
   */
  lemma MessageIsFilledTemplate(session: string, rows: seq<ClosureRow>, subject: seq<Segment>, plain: seq<Segment>,
                                html: Option<seq<Segment>>, braced: set<string>)
    requires rows != [] && SafeVariables(Variables(session, rows), braced)
    requires Over(subject, braced) && Over(plain, braced) && (html.Some? ==> Over(html.value, braced))
    ensures var vars := Variables(session, rows);
      var text := Render(Filled(plain, vars));
      Substitute(EmailTemplate(Render(subject), Render(plain), OptionMap(html, Render)), vars)
      == Message(Render(Filled(subject, vars)), text,
                 match html
                 case Some(h) => Render(Filled(h, vars))
                 case None => "<html><body><pre>" + Replace(text, "\n", "<br>") + "</pre></body></html>")
  {
    var vars := Variables(session, rows);
    SubstitutionIsSimultaneous(subject, vars, braced);
    SubstitutionIsSimultaneous(plain, vars, braced);
    if html.Some? {
      SubstitutionIsSimultaneous(html.value, vars, braced);
    }
  }

  lemma {:induction false} SegmentIsContained(segments: seq<Segment>, s: Segment)
    requires s in segments
    ensures Contains(Render(segments), SegmentText(s))
  {
    var head, rest := SegmentText(segments[0]), Render(segments[1..]);
    if s == segments[0] {
      assert (head + rest)[0..] == head + rest;
    } else {
      SegmentIsContained(segments[1..], s);
      ContainedBehind(head, rest, SegmentText(s));
    }
  }

  lemma ContainedBehind(before: string, s: string, part: string)
    requires Contains(s, part)
    ensures Contains(before + s, part)
  {
    var i :| 0 <= i <= |s| && part <= s[i..];
    assert (before + s)[|before| + i..] == s[i..];
  }

  lemma ContainedBefore(s: string, after: string, part: string)
    requires Contains(s, part)
    ensures Contains(s + after, part)
  {
    var i :| 0 <= i <= |s| && part <= s[i..];
    assert (s + after)[i..] == s[i..] + after;
  }

  lemma ContainedTwice(s: string, t: string, part: string)
    requires Contains(s, t) && Contains(t, part)
    ensures Contains(s, part)
  {
    var i :| 0 <= i <= |s| && t <= s[i..];
    ContainedBefore(t, s[i + |t|..], part);
    assert s == s[..i] + (t + s[i + |t|..]);
    ContainedBehind(s[..i], t + s[i + |t|..], part);
  }

  lemma {:induction false} PartIsContained(parts: seq<string>, sep: string, p: string)
    requires p in parts
    ensures Contains(Join(parts, sep), p)
  {
    if |parts| == 1 {
      assert parts[0][0..] == p;
    } else if p == parts[0] {
      var rest := sep + Join(parts[1..], sep);
      assert Join(parts, sep) == p + rest && (p + rest)[0..] == p + rest;
    } else {
      PartIsContained(parts[1..], sep, p);
      ContainedBehind(parts[0] + sep, Join(parts[1..], sep), p);
    }
  }

  lemma {:induction false} FilledLiteral(segments: seq<Segment>, vars: seq<Variable>, key: string)
    requires Placeholder(key) in segments && Lookup(vars, key).Some?
    ensures Literal(Lookup(vars, key).value) in Filled(segments, vars)
  {
    if segments[0] != Placeholder(key) {
      FilledLiteral(segments[1..], vars, key);
    }
  }

  lemma ItemsListIsBound(session: string, rows: seq<ClosureRow>)
    requires rows != []
    ensures Lookup(Variables(session, rows), "items_list") == Some(Join(Map(rows, FormatItemLine), "\n"))
  {
    var vars := Variables(session, rows);
    var key := "items_list";
    assert vars[0].0[0] != key[0] && vars[1].0[0] != key[0] && vars[2].0[0] != key[0] && vars[3].0 == key;
    LookupFirst(vars, 3);
  }

  /** The names and the session are bound to their own values; a missing name is empty. */
  lemma NamesAreBound(session: string, rows: seq<ClosureRow>)
    requires rows != []
    ensures var vars, row := Variables(session, rows), rows[0];
      && Lookup(vars, "firstname") == (if row.firstname.Some? then row.firstname else Some(""))
      && Lookup(vars, "lastname") == (if row.lastname.Some? then row.lastname else Some(""))
      && Lookup(vars, "session_name") == Some(session)
  {
    var vars := Variables(session, rows);
    assert vars[0].0[0] == 'f' && vars[1].0[0] == 'l' && vars[2].0[0] == 's';
    assert "firstname"[0] == 'f' && "lastname"[0] == 'l' && "session_name"[0] == 's';
    LookupFirst(vars, 0);
    LookupFirst(vars, 1);
    LookupFirst(vars, 2);
  }

  lemma HtmlListIsBound(session: string, rows: seq<ClosureRow>)
    requires rows != []
    ensures Lookup(Variables(session, rows), "items_list_html")
         == Some("<ul>" + Join(Map(rows, HtmlItem), "") + "</ul>")
  {
    var vars := Variables(session, rows);
    var key := "items_list_html";
    assert vars[0].0[0] != key[0] && vars[1].0[0] != key[0] && vars[2].0[0] != key[0];
    assert |vars[3].0| < |key| && vars[4].0 == key;
    LookupFirst(vars, 4);
  }

  /** A text that shows the list of items has the line of every one. */
  lemma ListedLine(plain: seq<Segment>, vars: seq<Variable>, rows: seq<ClosureRow>, row: ClosureRow)
    requires row in rows && Placeholder("items_list") in plain
    requires Lookup(vars, "items_list") == Some(Join(Map(rows, FormatItemLine), "\n"))
    ensures Contains(Render(Filled(plain, vars)), FormatItemLine(row))
  {
    var list := Join(Map(rows, FormatItemLine), "\n");
    FilledLiteral(plain, vars, "items_list");
    SegmentIsContained(Filled(plain, vars), Literal(list));
    LinesOfRows(rows);
    PartIsContained(Map(rows, FormatItemLine), "\n", FormatItemLine(row));
    ContainedTwice(Render(Filled(plain, vars)), list, FormatItemLine(row));
  }

  lemma LoanIsBooked(rows: seq<ClosureRow>, row: ClosureRow)
    requires row in rows
    ensures row.loanId in Map(rows, LoanId)
  {
    LoanIdsInOrder(rows);
    var i :| 0 <= i < |rows| && rows[i] == row;
    assert Map(rows, LoanId)[i] == row.loanId;
  }

  lemma QueuedContents(services: Services, session: string, rows: seq<ClosureRow>)
    requires rows != [] && Deliver(services, session, rows).Queued?
    ensures var mail := Deliver(services, session, rows).mail;
      var template := services.template(rows[0].userId, rows[0].language);
      && mail.loanIds == Map(rows, LoanId)
      && template.Ok? && mail.message.plain == Substituted(template.value.bodyPlain, Variables(session, rows))
  {
  }

  /**
   A queued mail whose template shows the list of items names every loan of its reader's group: the
   item's line is in the text, and the loan among those booked.
   */
  lemma QueuedMailListsEveryLoan(services: Services, session: string, rows: seq<ClosureRow>, plain: seq<Segment>,
                                 row: ClosureRow, braced: set<string>)
    requires row in rows && SafeVariables(Variables(session, rows), braced)
    requires Over(plain, braced) && Placeholder("items_list") in plain
    ensures var template := services.template(rows[0].userId, rows[0].language);
      var delivery := Deliver(services, session, rows);
      delivery.Queued? && template.value.bodyPlain == Render(plain) ==>
        && Contains(delivery.mail.message.plain, FormatItemLine(row))
        && row.loanId in delivery.mail.loanIds
  {
    SubstitutionIsSimultaneous(plain, Variables(session, rows), braced);
    ItemsListIsBound(session, rows);
    ListedLine(plain, Variables(session, rows), rows, row);
    LoanIsBooked(rows, row);
    if Deliver(services, session, rows).Queued? {
      QueuedContents(services, session, rows);
    }
  }

  /** The HTML list carries no markup of the readers' data: only its own tags have brackets. */
  lemma ItemLinesAreEscaped(row: ClosureRow)
    ensures var inner := HtmlEscape.Escape(FormatItemLine(row));
      && HtmlItem(row) == "<li>" + inner + "</li>"
      && '<' !in inner && '>' !in inner && HtmlEscape.Unescape(inner) == FormatItemLine(row)
  {
    HtmlEscape.EscapeRoundTrip(FormatItemLine(row));
  }
}
