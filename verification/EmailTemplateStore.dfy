/**
 The template table: seeding from the packaged files and lookup along the language cascade,
 database rows first, files second.
 */
module EmailTemplateStore {
  import opened Options
  import opened Text
  import opened EmailTemplates
  import opened MarcModel

  datatype RawTemplate = RawTemplate(name: string, subject: string, bodyPlain: string, bodyHtml: Option<string>)

  /** A template file is absent, present but not readable as a template, or present. */
  datatype TemplateFile = Absent | Malformed | Present(raw: RawTemplate)

  type Key = (string, string)

  datatype Row = Row(name: string, subject: string, bodyPlain: string, bodyHtml: Option<string>)

  function SeededRow(raw: RawTemplate): Row {
    Row(Trim(raw.name), raw.subject, raw.bodyPlain, raw.bodyHtml)
  }

  function RowTemplate(r: Row): EmailTemplate {
    EmailTemplate(r.subject, r.bodyPlain, r.bodyHtml)
  }

  function RawEmailTemplate(r: RawTemplate): EmailTemplate {
    EmailTemplate(r.subject, r.bodyPlain, r.bodyHtml)
  }

  /** `load_from_file`: a missing file is not an error, a malformed one is. */
  function LoadFromFile(files: map<Key, TemplateFile>, key: Key): Result<Option<RawTemplate>> {
    if key !in files then Ok(None)
    else
      match files[key]
      case Absent => Ok(None)
      case Malformed => Err(Internal)
      case Present(raw) => Ok(Some(raw))
  }

  /** Languages tried in order. French and English are always both tried, and nothing else is. */
  function LanguageChain(lang: Option<Language>): (chain: seq<string>)
    ensures |chain| == 2 && "french" in chain && "english" in chain
    ensures chain[0] == "english" <==> lang == Some(English)
  {
    match lang
    case Some(French) => ["french", "english"]
    case Some(English) => ["english", "french"]
    case Some(_) => ["french", "english"]
    case None => ["french", "english"]
  }

  /** The database rows that seeding adds, as a function of the files and the existing rows. */
  ghost predicate SeedsFrom(before: map<Key, Row>, after: map<Key, Row>, keys: seq<Key>, files: map<Key, TemplateFile>) {
    && (forall k :: k in before ==> k in after && after[k] == before[k])
    && (forall k :: k in after && k !in before ==>
          k in keys && k in files && files[k].Present? && after[k] == SeededRow(files[k].raw))
    && (forall k :: k in keys && k in files && files[k].Present? ==> k in after)
  }

  lemma SeedStep(before: map<Key, Row>, after: map<Key, Row>, keys: seq<Key>, files: map<Key, TemplateFile>, key: Key)
    requires SeedsFrom(before, after, keys, files)
    ensures key in after || key !in files || !files[key].Present? ==> SeedsFrom(before, after, keys + [key], files)
    ensures key !in after && key in files && files[key].Present? ==>
              SeedsFrom(before, after[key := SeededRow(files[key].raw)], keys + [key], files)
  {
  }

  /** Every template id with every language, in the order of the two loops. */
  function Pairs(ids: seq<string>, languages: seq<string>): seq<Key> {
    if ids == [] then [] else PairsWith(ids[0], languages) + Pairs(ids[1..], languages)
  }

  function PairsWith(id: string, languages: seq<string>): seq<Key> {
    if languages == [] then [] else [(id, languages[0])] + PairsWith(id, languages[1..])
  }

  class TemplateStore {
    var table: map<Key, Row>

    constructor ()
      ensures table == map[]
    {
      table := map[];
    }

    /**
     Seeds the rows that are not in the table yet. Existing rows are never touched, whether or
     not the seeding succeeds; it fails exactly when a file that is needed is malformed.
     */
    method BootstrapFromFiles(ids: seq<string>, languages: seq<string>, files: map<Key, TemplateFile>)
      returns (inserted: Result<nat>)
      modifies this
      ensures inserted.Ok? ==> SeedsFrom(old(table), table, Pairs(ids, languages), files)
      ensures inserted.Ok? ==> inserted.value == |table| - |old(table)|
      ensures forall k :: k in old(table) ==> k in table && table[k] == old(table)[k]
      ensures inserted.Err? <==>
                exists k :: k in Pairs(ids, languages) && k !in old(table)
                         && k in files && files[k].Malformed?
    {
      var keys := Pairs(ids, languages);
      var count := 0;
      for i := 0 to |keys|
        invariant SeedsFrom(old(table), table, keys[..i], files)
        invariant count == |table| - |old(table)|
        invariant forall k :: k in keys[..i] && k !in old(table) && k in files ==> !files[k].Malformed?
      {
        assert keys[..i + 1] == keys[..i] + [keys[i]];
        SeedStep(old(table), table, keys[..i], files, keys[i]);
        if keys[i] in table {
          continue;
        }
        match LoadFromFile(files, keys[i]) {
          case Err(e) =>
            assert keys[i] in keys;
            return Err(e);
          case Ok(None) =>
          case Ok(Some(raw)) =>
            table := table[keys[i] := SeededRow(raw)];
            count := count + 1;
        }
      }
      assert keys[..|keys|] == keys;
      return Ok(count);
    }

    /** The cascade over the table, then over the files. */
    method LoadTemplate(files: map<Key, TemplateFile>, id: string, lang: Option<Language>)
      returns (template: Result<EmailTemplate>)
      ensures template == Cascade(table, files, id, LanguageChain(lang))
      ensures LoadedFrom(table, files, id, lang, template)
    {
      CascadeIsLoaded(table, files, id, lang);
      var candidates := LanguageChain(lang);
      for i := 0 to |candidates|
        invariant FirstRow(table, id, candidates) == FirstRow(table, id, candidates[i..])
      {
        if (id, candidates[i]) in table {
          return Ok(RowTemplate(table[(id, candidates[i])]));
        }
        assert candidates[i..][1..] == candidates[i + 1..];
      }
      for i := 0 to |candidates|
        invariant FirstFile(files, id, candidates) == FirstFile(files, id, candidates[i..])
      {
        match LoadFromFile(files, (id, candidates[i])) {
          case Err(e) => return Err(e);
          case Ok(Some(raw)) => return Ok(RawEmailTemplate(raw));
          case Ok(None) =>
        }
        assert candidates[i..][1..] == candidates[i + 1..];
      }
      return Err(Internal);
    }
  }

  function FirstRow(table: map<Key, Row>, id: string, chain: seq<string>): Option<Row> {
    if chain == [] then None
    else if (id, chain[0]) in table then Some(table[(id, chain[0])])
    else FirstRow(table, id, chain[1..])
  }

  function FirstFile(files: map<Key, TemplateFile>, id: string, chain: seq<string>): Result<EmailTemplate> {
    if chain == [] then Err(Internal)
    else
      match LoadFromFile(files, (id, chain[0]))
      case Err(e) => Err(e)
      case Ok(Some(raw)) => Ok(RawEmailTemplate(raw))
      case Ok(None) => FirstFile(files, id, chain[1..])
  }

  function Cascade(table: map<Key, Row>, files: map<Key, TemplateFile>, id: string, chain: seq<string>)
    : Result<EmailTemplate>
  {
    match FirstRow(table, id, chain)
    case Some(row) => Ok(RowTemplate(row))
    case None => FirstFile(files, id, chain)
  }

  /** A template with the subject and the bodies of a row, or of a file. */
  predicate HasTextsOf(t: EmailTemplate, subject: string, bodyPlain: string, bodyHtml: Option<string>) {
    t.subject == subject && t.bodyPlain == bodyPlain && t.bodyHtml == bodyHtml
  }

  /** What one file contributes; nothing if it is not there. */
  predicate FileGives(files: map<Key, TemplateFile>, key: Key, template: Result<EmailTemplate>, absent: bool) {
    if key !in files || files[key].Absent? then absent
    else if files[key].Malformed? then template == Err(Internal)
    else
      var raw := files[key].raw;
      template.Ok? && HasTextsOf(template.value, raw.subject, raw.bodyPlain, raw.bodyHtml)
  }

  /**
   The two languages are English and French for a reader of English, else French and English. A row
   in either goes before the files; of these a malformed one is an error and a missing one is not.
   */
  predicate LoadedFrom(table: map<Key, Row>, files: map<Key, TemplateFile>, id: string, lang: Option<Language>,
                       template: Result<EmailTemplate>)
  {
    var first := if lang == Some(English) then "english" else "french";
    var second := if lang == Some(English) then "french" else "english";
    if (id, first) in table || (id, second) in table then
      var row := if (id, first) in table then table[(id, first)] else table[(id, second)];
      template.Ok? && HasTextsOf(template.value, row.subject, row.bodyPlain, row.bodyHtml)
    else
      FileGives(files, (id, first), template, FileGives(files, (id, second), template, template == Err(Internal)))
  }

  lemma CascadeIsLoaded(table: map<Key, Row>, files: map<Key, TemplateFile>, id: string, lang: Option<Language>)
    ensures LoadedFrom(table, files, id, lang, Cascade(table, files, id, LanguageChain(lang)))
  {
    var chain := LanguageChain(lang);
    assert chain == if lang == Some(English) then ["english", "french"] else ["french", "english"];
    FirstRowOf(table, id, chain);
    FirstFileOf(files, id, chain, Cascade(table, files, id, chain));
  }

  lemma FirstFileOf(files: map<Key, TemplateFile>, id: string, chain: seq<string>, template: Result<EmailTemplate>)
    requires |chain| == 2
    ensures template == FirstFile(files, id, chain) ==>
              FileGives(files, (id, chain[0]), template,
                        FileGives(files, (id, chain[1]), template, template == Err(Internal)))
  {
    var tail := chain[1..];
    assert tail[0] == chain[1] && tail[1..] == [];
    assert FirstFile(files, id, tail[1..]) == Err(Internal);
    assert FirstFile(files, id, tail) == FirstFile(files, id, chain[1..]);
  }

  /** A seeded row has its file's texts, and what is loaded in its language has them too. */
  lemma SeededTemplateIsFile(before: map<Key, Row>, seeded: map<Key, Row>, keys: seq<Key>,
                             files: map<Key, TemplateFile>, later: map<Key, TemplateFile>, id: string, lang: Language)
    requires SeedsFrom(before, seeded, keys, files) && (lang.English? || lang.French?)
    requires var key := (id, if lang.English? then "english" else "french");
      key in keys && key !in before && key in files && files[key].Present?
    ensures var key := (id, if lang.English? then "english" else "french");
      var raw := files[key].raw;
      && key in seeded && IsTrimOf(seeded[key].name, raw.name, IsWhitespace)
      && Cascade(seeded, later, id, LanguageChain(Some(lang)))
         == Ok(EmailTemplate(raw.subject, raw.bodyPlain, raw.bodyHtml))
  {
    var key := (id, if lang.English? then "english" else "french");
    TrimIsTrim(files[key].raw.name, IsWhitespace);
    CascadeIsLoaded(seeded, later, id, Some(lang));
  }

  lemma {:induction false} PairsWithMembers(id: string, languages: seq<string>)
    ensures forall k :: k in PairsWith(id, languages) <==> k.0 == id && k.1 in languages
  {
    if languages != [] {
      PairsWithMembers(id, languages[1..]);
    }
  }

  lemma {:induction false} PairsMembers(ids: seq<string>, languages: seq<string>)
    ensures forall k :: k in Pairs(ids, languages) <==> k.0 in ids && k.1 in languages
  {
    if ids != [] {
      PairsWithMembers(ids[0], languages);
      PairsMembers(ids[1..], languages);
      assert ids == [ids[0]] + ids[1..];
    }
  }

  /** A second seeding from the same files adds nothing, so edited rows survive every restart. */
  lemma SecondBootstrapAddsNothing(before: map<Key, Row>, seeded: map<Key, Row>, again: map<Key, Row>,
                                   keys: seq<Key>, files: map<Key, TemplateFile>)
    requires SeedsFrom(before, seeded, keys, files)
    requires SeedsFrom(seeded, again, keys, files)
    ensures again == seeded
  {
  }

  /**
   After a successful seeding, a known template with at least one packaged file loads for every
   language, and always from the table: whatever the files have become since.
   */
  lemma SeededTemplatesAlwaysLoad(before: map<Key, Row>, seeded: map<Key, Row>, files: map<Key, TemplateFile>,
                                  later: map<Key, TemplateFile>, ids: seq<string>, languages: seq<string>,
                                  id: string, lang: Option<Language>)
    requires SeedsFrom(before, seeded, Pairs(ids, languages), files)
    requires id in ids && forall l :: l in languages ==> l == "english" || l == "french"
    requires exists l :: l in languages && (id, l) in files && files[(id, l)].Present?
    ensures Cascade(seeded, later, id, LanguageChain(lang)).Ok?
    ensures exists l :: l in LanguageChain(lang) && (id, l) in seeded
              && Cascade(seeded, later, id, LanguageChain(lang)) == Ok(RowTemplate(seeded[(id, l)]))
  {
    PairsMembers(ids, languages);
    var l :| l in languages && (id, l) in files && files[(id, l)].Present?;
    assert (id, l) in seeded;
    var chain := LanguageChain(lang);
    assert l == chain[0] || l == chain[1];
    FirstRowOf(seeded, id, chain);
  }

  lemma FirstRowOf(table: map<Key, Row>, id: string, chain: seq<string>)
    requires |chain| == 2
    ensures FirstRow(table, id, chain) ==
              if (id, chain[0]) in table then Some(table[(id, chain[0])])
              else if (id, chain[1]) in table then Some(table[(id, chain[1])])
              else None
  {
    var tail := chain[1..];
    assert tail[0] == chain[1] && tail[1..] == [];
    assert FirstRow(table, id, tail) == if (id, chain[1]) in table then Some(table[(id, chain[1])]) else None;
  }

  /** A row in the second language of the cascade is preferred to a file in the first. */
  lemma RowBeatsFile(table: map<Key, Row>, files: map<Key, TemplateFile>, id: string, lang: Option<Language>)
    requires (id, LanguageChain(lang)[0]) !in table && (id, LanguageChain(lang)[1]) in table
    ensures Cascade(table, files, id, LanguageChain(lang)) == Ok(RowTemplate(table[(id, LanguageChain(lang)[1])]))
  {
    FirstRowOf(table, id, LanguageChain(lang));
  }
}
