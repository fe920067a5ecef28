/**
 The catalogue's CSV export, and a reader for RFC 4180 section 2 with LF as the record end and CR
 as an ordinary character.
 */
module CsvExport {
  import opened Options
  import opened Sequences
  import opened Text
  import opened Decimal

  // ── Writing ────────────────────────────────────────────────────────────────

  predicate NeedsQuotes(s: string) {
    ',' in s || '"' in s || '\n' in s
  }

  function EscapeCsv(s: string): string {
    if NeedsQuotes(s) then "\"" + Replace(s, ['"'], "\"\"") + "\"" else s
  }

  datatype Person = Person(firstname: Option<string>, lastname: Option<string>)

  /** The columns of a biblio that the export shows. */
  datatype BiblioRow = BiblioRow(
    id: int, isbn: Option<string>, title: Option<string>, author: Option<Person>, mediaType: string,
    date: Option<string>, itemCount: nat)

  function OrEmpty(o: Option<string>): string {
    match o
    case None => ""
    case Some(s) => s
  }

  function AuthorName(author: Option<Person>): string {
    match author
    case None => ""
    case Some(p) => Trim(OrEmpty(p.firstname) + " " + OrEmpty(p.lastname))
  }

  /** The column names, none of which needs quotes. */
  const HEADER: seq<string> := ["id", "isbn", "title", "author", "media_type", "date", "items"]

  /** The seven values of one line, before escaping. */
  function Fields(b: BiblioRow): (fields: seq<string>)
    ensures |fields| == 7
  {
    [IntToString(b.id), OrEmpty(b.isbn), OrEmpty(b.title), AuthorName(b.author), b.mediaType,
     OrEmpty(b.date), IntToString(b.itemCount)]
  }

  /** One line of the file; the id and the number of copies are printed without escaping. */
  function LineText(b: BiblioRow): string {
    IntToString(b.id) + ("," + (EscapeCsv(OrEmpty(b.isbn)) + ("," + (EscapeCsv(OrEmpty(b.title)) + (","
    + (EscapeCsv(AuthorName(b.author)) + ("," + (EscapeCsv(b.mediaType) + (","
    + (EscapeCsv(OrEmpty(b.date)) + ("," + (IntToString(b.itemCount) + "\n"))))))))))))
  }

  function AllFields(rows: seq<BiblioRow>): seq<seq<string>> {
    if rows == [] then [] else [Fields(rows[0])] + AllFields(rows[1..])
  }

  /** A field is left alone exactly when it has no comma, quote or line end, and is quoted otherwise. */
  lemma EscapedIff(s: string)
    ensures EscapeCsv(s) == s <==> forall i :: 0 <= i < |s| ==> s[i] != ',' && s[i] != '"' && s[i] != '\n'
    ensures EscapeCsv(s) != s ==>
              |EscapeCsv(s)| >= |s| + 2 && EscapeCsv(s)[0] == '"' && EscapeCsv(s)[|EscapeCsv(s)| - 1] == '"'
  {
    ReplaceNoShorter(s, ['"'], "\"\"");
    assert NeedsQuotes(s) <==> exists i :: 0 <= i < |s| && (s[i] == ',' || s[i] == '"' || s[i] == '\n') by {
      if i :| 0 <= i < |s| && (s[i] == ',' || s[i] == '"' || s[i] == '\n') {
        assert s[i] in s;
      }
    }
  }

  /** A missing value reads as an empty one. */
  predicate ValueRead(o: Option<string>, field: string) {
    if o.Some? then field == o.value else field == ""
  }

  /** The author is the first name and the last name, with a blank between and none around. */
  ghost predicate AuthorShown(author: Option<Person>, field: string) {
    if author.None? then field == ""
    else
      exists first, last :: ValueRead(author.value.firstname, first) && ValueRead(author.value.lastname, last)
                            && IsTrimOf(field, first + " " + last, IsWhitespace)
  }

  /** Which value stands in which column of a record. */
  ghost predicate ShowsBiblio(record: seq<string>, b: BiblioRow) {
    && |record| == 7
    && record[0] == IntToString(b.id)
    && ValueRead(b.isbn, record[1])
    && ValueRead(b.title, record[2])
    && AuthorShown(b.author, record[3])
    && record[4] == b.mediaType
    && ValueRead(b.date, record[5])
    && record[6] == IntToString(b.itemCount)
  }

  lemma FieldsShowBiblio(b: BiblioRow)
    ensures ShowsBiblio(Fields(b), b)
  {
    if b.author.Some? {
      var first, last := OrEmpty(b.author.value.firstname), OrEmpty(b.author.value.lastname);
      TrimIsTrim(first + " " + last, IsWhitespace);
      assert ValueRead(b.author.value.firstname, first) && ValueRead(b.author.value.lastname, last);
    }
  }

  /** An author with both names, neither with a blank at its ends, is shown as both. */
  lemma BothNamesShown(first: string, last: string)
    requires first != "" && last != "" && TrimmedBy(first, IsWhitespace) && TrimmedBy(last, IsWhitespace)
    ensures AuthorName(Some(Person(Some(first), Some(last)))) == first + " " + last
    ensures AuthorName(Some(Person(Some(first), None))) == first
    ensures AuthorName(Some(Person(None, Some(last)))) == last
    ensures AuthorName(Some(Person(None, None))) == "" == AuthorName(None)
  {
    TrimByTrims(first + " " + last, IsWhitespace);
    OnlyTrim(first, first + " " + "", 0, |first|, IsWhitespace);
    OnlyTrim(last, "" + " " + last, 1, |last| + 1, IsWhitespace);
    OnlyTrim("", "" + " " + "", 1, 1, IsWhitespace);
  }

  lemma {:induction false} AllShowBiblios(rows: seq<BiblioRow>)
    ensures |AllFields(rows)| == |rows|
    ensures forall i :: 0 <= i < |rows| ==> ShowsBiblio(AllFields(rows)[i], rows[i])
  {
    if rows != [] {
      FieldsShowBiblio(rows[0]);
      AllShowBiblios(rows[1..]);
    }
  }

  /** The file as read: the column names, then one record per biblio, in order. */
  ghost predicate ReadsAs(csv: string, biblios: seq<BiblioRow>) {
    var records := ReadCsv(csv);
    && records.Some? && |records.value| == |biblios| + 1
    && records.value[0] == ["id", "isbn", "title", "author", "media_type", "date", "items"]
    && forall i :: 0 <= i < |biblios| ==> ShowsBiblio(records.value[i + 1], biblios[i])
  }

  /** The whole export; reading it back gives the header and every biblio's values. */
  method ExportBibliosCsv(biblios: seq<BiblioRow>) returns (csv: string)
    ensures ReadCsv(csv) == Some([HEADER] + AllFields(biblios))
    ensures ReadsAs(csv, biblios)
  {
    csv := RecordText(HEADER);
    HeaderWritten();
    for i := 0 to |biblios|
      invariant Writes(csv, [HEADER] + AllFields(biblios[..i]))
    {
      OneMoreLine(csv, biblios, i);
      csv := csv + LineText(biblios[i]);
    }
    assert biblios[..|biblios|] == biblios;
    WrittenIsRead(csv, [HEADER] + AllFields(biblios));
    AllShowBiblios(biblios);
  }

  // ── Reading ────────────────────────────────────────────────────────────────

  datatype Position = FieldStart | Unquoted | Quoted | QuoteSeen

  /** What has been read so far: complete records, complete fields, and the current field. */
  datatype Progress = Progress(records: seq<seq<string>>, fields: seq<string>, field: string)

  function EndField(p: Progress): Progress {
    Progress(p.records, p.fields + [p.field], "")
  }

  function EndRecord(p: Progress): Progress {
    Progress(p.records + [p.fields + [p.field]], [], "")
  }

  function AddChar(p: Progress, c: char): Progress {
    p.(field := p.field + [c])
  }

  /** Reads the rest of a file; `None` for a quote where none is allowed or a missing one. */
  function Read(s: string, at: Position, p: Progress): Option<seq<seq<string>>> {
    if s == [] then
      if at == Quoted then None
      else if at == FieldStart && p.fields == [] then Some(p.records)
      else Some(EndRecord(p).records)
    else
      var c, rest := s[0], s[1..];
      match at
      case Quoted =>
        if c == '"' then Read(rest, QuoteSeen, p) else Read(rest, Quoted, AddChar(p, c))
      case _ =>
        if c == ',' then Read(rest, FieldStart, EndField(p))
        else if c == '\n' then Read(rest, FieldStart, EndRecord(p))
        else if c == '"' && at == FieldStart then Read(rest, Quoted, p)
        else if c == '"' && at == QuoteSeen then Read(rest, Quoted, AddChar(p, c))
        else if c == '"' || at == QuoteSeen then None
        else Read(rest, Unquoted, AddChar(p, c))
  }

  function ReadCsv(s: string): Option<seq<seq<string>>> {
    Read(s, FieldStart, Progress([], [], ""))
  }

  // ── What is written is read ────────────────────────────────────────────────

  function RecordText(fields: seq<string>): string
    requires fields != []
  {
    if |fields| == 1 then EscapeCsv(fields[0]) + "\n"
    else EscapeCsv(fields[0]) + ("," + RecordText(fields[1..]))
  }

  /** `text` appended to a file is read as the records `records`. */
  ghost predicate Writes(text: string, records: seq<seq<string>>) {
    forall tail, done :: Read(text + tail, FieldStart, Progress(done, [], ""))
                      == Read(tail, FieldStart, Progress(done + records, [], ""))
  }

  lemma {:induction false} UnquotedRun(f: string, tail: string, p: Progress)
    requires !NeedsQuotes(f)
    ensures Read(f + tail, Unquoted, p) == Read(tail, Unquoted, p.(field := p.field + f))
  {
    if f == [] {
      assert f + tail == tail && p.field + f == p.field;
    } else {
      assert (f + tail)[1..] == f[1..] + tail;
      assert f[0] in f;
      UnquotedRun(f[1..], tail, AddChar(p, f[0]));
      assert p.field + [f[0]] + f[1..] == p.field + f;
    }
  }

  lemma {:induction false} QuotedRun(f: string, tail: string, p: Progress)
    ensures Read(Replace(f, ['"'], "\"\"") + tail, Quoted, p) == Read(tail, Quoted, p.(field := p.field + f))
  {
    var w := Replace(f, ['"'], "\"\"");
    if f == [] {
      assert w + tail == tail && p.field + f == p.field;
    } else {
      var rest := Replace(f[1..], ['"'], "\"\"");
      QuotedRun(f[1..], tail, AddChar(p, f[0]));
      assert p.field + [f[0]] + f[1..] == p.field + f;
      if f[0] == '"' {
        assert w + tail == "\"" + ("\"" + (rest + tail));
        assert (w + tail)[1..] == "\"" + (rest + tail) && (w + tail)[1..][1..] == rest + tail;
        assert Read(w + tail, Quoted, p) == Read(rest + tail, Quoted, AddChar(p, '"'));
      } else {
        assert (w + tail)[1..] == rest + tail;
      }
    }
  }

  lemma QuotedFieldIsRead(f: string, rest: string, p: Progress)
    requires p.field == ""
    ensures Read("\"" + (Replace(f, ['"'], "\"\"") + ("\"" + rest)), FieldStart, p) == Read(rest, QuoteSeen, p.(field := f))
  {
    var w := Replace(f, ['"'], "\"\"");
    var s := "\"" + (w + ("\"" + rest));
    assert s[1..] == w + ("\"" + rest);
    QuotedRun(f, "\"" + rest, p);
    assert ("\"" + rest)[1..] == rest && p.field + f == f;
  }

  lemma PlainFieldIsRead(f: string, rest: string, p: Progress)
    requires p.field == "" && !NeedsQuotes(f) && f != []
    ensures Read(f + rest, FieldStart, p) == Read(rest, Unquoted, p.(field := f))
  {
    assert (f + rest)[1..] == f[1..] + rest && f[0] in f;
    UnquotedRun(f[1..], rest, AddChar(p, f[0]));
    assert p.field + [f[0]] + f[1..] == f;
  }

  function EndWith(p: Progress, delimiter: char): Progress {
    if delimiter == ',' then EndField(p) else EndRecord(p)
  }

  lemma DelimiterIsRead(at: Position, delimiter: char, tail: string, p: Progress)
    requires delimiter == ',' || delimiter == '\n'
    requires at != Quoted
    ensures Read([delimiter] + tail, at, p) == Read(tail, FieldStart, EndWith(p, delimiter))
  {
    assert ([delimiter] + tail)[1..] == tail;
  }

  /** Where the reader stands after an escaped field. */
  function EndPosition(f: string): Position {
    if NeedsQuotes(f) then QuoteSeen else if f == [] then FieldStart else Unquoted
  }

  lemma EscapedFieldIsRead(f: string, rest: string, p: Progress)
    requires p.field == ""
    ensures Read(EscapeCsv(f) + rest, FieldStart, p) == Read(rest, EndPosition(f), p.(field := f))
  {
    if NeedsQuotes(f) {
      QuotedFieldIsRead(f, rest, p);
      QuotedText(f, rest);
    } else if f == [] {
      assert EscapeCsv(f) + rest == rest;
    } else {
      PlainFieldIsRead(f, rest, p);
    }
  }

  lemma QuotedText(f: string, rest: string)
    requires NeedsQuotes(f)
    ensures EscapeCsv(f) + rest == "\"" + (Replace(f, ['"'], "\"\"") + ("\"" + rest))
  {
  }

  /** An escaped field followed by its delimiter is read as that field. */
  lemma FieldIsRead(f: string, delimiter: char, tail: string, p: Progress)
    requires delimiter == ',' || delimiter == '\n'
    requires p.field == ""
    ensures Read(EscapeCsv(f) + ([delimiter] + tail), FieldStart, p)
         == Read(tail, FieldStart, EndWith(p.(field := f), delimiter))
  {
    EscapedFieldIsRead(f, [delimiter] + tail, p);
    DelimiterIsRead(EndPosition(f), delimiter, tail, p.(field := f));
  }

  lemma {:induction false} RecordIsRead(fields: seq<string>, tail: string, p: Progress)
    requires fields != [] && p.field == ""
    ensures Read(RecordText(fields) + tail, FieldStart, p)
         == Read(tail, FieldStart, Progress(p.records + [p.fields + fields], [], ""))
  {
    var f := fields[0];
    if |fields| == 1 {
      ConcatAssociative(EscapeCsv(f), "\n", tail);
      FieldIsRead(f, '\n', tail, p);
      assert fields == [f];
    } else {
      var rest := RecordText(fields[1..]);
      ConcatAssociative(EscapeCsv(f), "," + rest, tail);
      ConcatAssociative(",", rest, tail);
      FieldIsRead(f, ',', rest + tail, p);
      RecordIsRead(fields[1..], tail, EndField(p.(field := f)));
      SplitFields(p.fields, fields);
    }
  }

  lemma SplitFields(before: seq<string>, fields: seq<string>)
    requires fields != []
    ensures before + [fields[0]] + fields[1..] == before + fields
  {
  }

  lemma RecordWrites(fields: seq<string>)
    requires fields != []
    ensures Writes(RecordText(fields), [fields])
  {
    forall tail, done
      ensures Read(RecordText(fields) + tail, FieldStart, Progress(done, [], ""))
           == Read(tail, FieldStart, Progress(done + [fields], [], ""))
    {
      RecordIsRead(fields, tail, Progress(done, [], ""));
      assert [] + fields == fields;
    }
  }

  lemma WritesOneMore(text: string, records: seq<seq<string>>, fields: seq<string>)
    requires Writes(text, records) && fields != []
    ensures Writes(text + RecordText(fields), records + [fields])
  {
    RecordWrites(fields);
    forall tail, done
      ensures Read(text + RecordText(fields) + tail, FieldStart, Progress(done, [], ""))
           == Read(tail, FieldStart, Progress(done + (records + [fields]), [], ""))
    {
      assert text + RecordText(fields) + tail == text + (RecordText(fields) + tail);
      assert done + (records + [fields]) == done + records + [fields];
    }
  }

  lemma HeaderWritten()
    ensures Writes(RecordText(HEADER), [HEADER] + AllFields([]))
  {
    RecordWrites(HEADER);
    assert [HEADER] + AllFields([]) == [HEADER];
  }

  lemma OneMoreLine(csv: string, biblios: seq<BiblioRow>, i: nat)
    requires i < |biblios| && Writes(csv, [HEADER] + AllFields(biblios[..i]))
    ensures Writes(csv + LineText(biblios[i]), [HEADER] + AllFields(biblios[..i + 1]))
  {
    LineIsRecord(biblios[i]);
    WritesOneMore(csv, [HEADER] + AllFields(biblios[..i]), Fields(biblios[i]));
    LinesOfPrefix(biblios, i);
  }

  lemma LinesOfPrefix(biblios: seq<BiblioRow>, i: nat)
    requires i < |biblios|
    ensures [HEADER] + AllFields(biblios[..i + 1]) == [HEADER] + AllFields(biblios[..i]) + [Fields(biblios[i])]
  {
    AllFieldsSnoc(biblios[..i], biblios[i]);
    assert biblios[..i + 1] == biblios[..i] + [biblios[i]];
    ConcatAssociative([HEADER], AllFields(biblios[..i]), [Fields(biblios[i])]);
  }

  lemma WrittenIsRead(text: string, records: seq<seq<string>>)
    requires Writes(text, records)
    ensures ReadCsv(text) == Some(records)
  {
    assert text + "" == text;
    assert Read(text + "", FieldStart, Progress([], [], "")) == Read("", FieldStart, Progress([] + records, [], ""));
    assert [] + records == records;
  }

  function FileText(records: seq<seq<string>>): string
    requires forall i :: 0 <= i < |records| ==> records[i] != []
  {
    if records == [] then [] else RecordText(records[0]) + FileText(records[1..])
  }

  /** Any table of non-empty records survives writing and reading, whatever its fields contain. */
  lemma {:induction false} CsvRoundTrip(records: seq<seq<string>>)
    requires forall i :: 0 <= i < |records| ==> records[i] != []
    ensures ReadCsv(FileText(records)) == Some(records)
  {
    FileWrites(records);
    WrittenIsRead(FileText(records), records);
  }

  lemma {:induction false} FileWrites(records: seq<seq<string>>)
    requires forall i :: 0 <= i < |records| ==> records[i] != []
    ensures Writes(FileText(records), records)
  {
    if records == [] {
      forall tail, done
        ensures Read(FileText(records) + tail, FieldStart, Progress(done, [], ""))
             == Read(tail, FieldStart, Progress(done + records, [], ""))
      {
        assert FileText(records) + tail == tail && done + records == done;
      }
    } else {
      RecordWrites(records[0]);
      FileWrites(records[1..]);
      var first, rest := RecordText(records[0]), FileText(records[1..]);
      forall tail, done
        ensures Read(first + rest + tail, FieldStart, Progress(done, [], ""))
             == Read(tail, FieldStart, Progress(done + records, [], ""))
      {
        assert first + rest + tail == first + (rest + tail);
        assert done + [records[0]] + records[1..] == done + records;
      }
    }
  }

  lemma PlainField(s: string)
    requires !NeedsQuotes(s)
    ensures EscapeCsv(s) == s
  {
  }

  lemma LineIsRecord(b: BiblioRow)
    ensures LineText(b) == RecordText(Fields(b))
  {
    var f := Fields(b);
    PlainField(IntToString(b.id));
    PlainField(IntToString(b.itemCount));
    RecordOfSeven(f[0], f[1], f[2], f[3], f[4], f[5], f[6]);
    assert f == [f[0], f[1], f[2], f[3], f[4], f[5], f[6]];
  }

  lemma RecordOfSeven(a: string, b: string, c: string, d: string, e: string, f: string, g: string)
    ensures RecordText([a, b, c, d, e, f, g])
         == EscapeCsv(a) + ("," + (EscapeCsv(b) + ("," + (EscapeCsv(c) + ("," + (EscapeCsv(d) + (","
          + (EscapeCsv(e) + ("," + (EscapeCsv(f) + ("," + (EscapeCsv(g) + "\n"))))))))))))
  {
    RecordCons(a, [b, c, d, e, f, g]);
    RecordCons(b, [c, d, e, f, g]);
    RecordCons(c, [d, e, f, g]);
    RecordOfFour(d, e, f, g);
    assert
      && [a] + [b, c, d, e, f, g] == [a, b, c, d, e, f, g] && [b] + [c, d, e, f, g] == [b, c, d, e, f, g]
      && [c] + [d, e, f, g] == [c, d, e, f, g];
  }

  lemma RecordOfFour(d: string, e: string, f: string, g: string)
    ensures RecordText([d, e, f, g])
         == EscapeCsv(d) + ("," + (EscapeCsv(e) + ("," + (EscapeCsv(f) + ("," + (EscapeCsv(g) + "\n"))))))
  {
    RecordCons(d, [e, f, g]);
    RecordCons(e, [f, g]);
    RecordCons(f, [g]);
    assert [d] + [e, f, g] == [d, e, f, g] && [e] + [f, g] == [e, f, g] && [f] + [g] == [f, g];
  }

  lemma RecordCons(field: string, rest: seq<string>)
    requires rest != []
    ensures RecordText([field] + rest) == EscapeCsv(field) + ("," + RecordText(rest))
  {
    assert ([field] + rest)[1..] == rest;
  }

  lemma {:induction false} AllFieldsSnoc(rows: seq<BiblioRow>, b: BiblioRow)
    ensures AllFields(rows + [b]) == AllFields(rows) + [Fields(b)]
  {
    if rows == [] {
      assert rows + [b] == [b] && [b][1..] == [];
    } else {
      assert (rows + [b])[1..] == rows[1..] + [b];
      AllFieldsSnoc(rows[1..], b);
    }
  }
}
