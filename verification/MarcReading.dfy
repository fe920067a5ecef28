/**
 The two MARC conversions read directly: what each field of an imported biblio and of an exported
 record holds, for every record and every biblio, said in terms of the other side's fields.
 */
module MarcReading {
  import opened Options
  import opened Sequences
  import opened Text
  import opened Decimal
  import opened MarcModel
  import opened MarcTranslator

  // ── Codes on the two sides ─────────────────────────────────────────────────

  /** The record types that are read as a media type; several media types are never read. */
  predicate ReadAs(rt: RecordType, mt: MediaType) {
    match mt
    case PrintedText => rt.LanguageMaterial?
    case AudioMusic => rt.NotatedMusic? || rt.MusicalSound?
    case CdRom => rt.PrintedCartographic?
    case Multimedia => rt.ManuscriptText? || rt.ElectronicResource?
    case Video => rt.ProjectedOrVideo?
    case Audio => rt.NonMusicalSound?
    case Images => rt.GraphicTwoDimensional?
    case Unknown => rt.MixedMaterials? || rt.OtherRecordType?
    case _ => false
  }

  /** The media types that are written as a record type; several record types are never written. */
  predicate WrittenAs(mt: MediaType, rt: RecordType) {
    match rt
    case LanguageMaterial => mt in {PrintedText, Comics, Periodic, Unknown, All}
    case ProjectedOrVideo => mt in {Video, VideoTape, VideoDvd}
    case NonMusicalSound => mt in {Audio, AudioNonMusic, AudioNonMusicTape, AudioNonMusicCd}
    case NotatedMusic => mt in {AudioMusic, AudioMusicTape, AudioMusicCd}
    case ElectronicResource => mt in {Multimedia, CdRom}
    case GraphicTwoDimensional => mt == Images
    case _ => false
  }

  /** The relators of an author function; unknown relators count as authors. */
  predicate SameRelator(r: Relator, f: Function) {
    match f
    case Author => r.RelAuthor? || r.RelOther?
    case Illustrator => r.RelIllustrator?
    case Translator => r.RelTranslator?
    case ScientificAdvisor => r.RelEditor?
    case PrefaceWriter => r.RelPrefaceWriter?
    case Photographer => r.RelPhotographer?
    case PublishingDirector => r.RelPublisher?
    case Composer => r.RelComposer?
  }

  predicate SameAudience(t: TargetAudience, a: AudienceType) {
    match a
    case Juvenile => t.TgtJuvenile?
    case Preschool => t.TgtPreschool?
    case Primary => t.TgtPrimary?
    case Children => t.TgtChildren?
    case YoungAdult => t.TgtYoungAdult?
    case AdultSerious => t.TgtAdultSerious?
    case Adult => t.TgtAdult?
    case General => t.TgtGeneral?
    case Specialized => t.TgtSpecialized?
    case UnknownAudience => t.TgtUnknown?
    case OtherAudience(code) => t == TgtOther(code)
  }

  predicate SameLanguage(m: MarcLanguage, l: Language) {
    match l
    case French => m.MarcFrench?
    case English => m.MarcEnglish?
    case German => m.MarcGerman?
    case Spanish => m.MarcSpanish?
    case Italian => m.MarcItalian?
    case Portuguese => m.MarcPortuguese?
    case Japanese => m.MarcJapanese?
    case Chinese => m.MarcChinese?
    case Russian => m.MarcRussian?
    case Arabic => m.MarcArabic?
    case Dutch => m.MarcDutch?
    case Swedish => m.MarcSwedish?
    case Norwegian => m.MarcNorwegian?
    case Danish => m.MarcDanish?
    case Finnish => m.MarcFinnish?
    case Polish => m.MarcPolish?
    case Czech => m.MarcCzech?
    case Hungarian => m.MarcHungarian?
    case Romanian => m.MarcRomanian?
    case Turkish => m.MarcTurkish?
    case Korean => m.MarcKorean?
    case Latin => m.MarcLatin?
    case Greek => m.MarcGreek?
    case Croatian => m.MarcCroatian?
    case Hindi => m.MarcHindi?
    case Hebrew => m.MarcHebrew?
    case Persian => m.MarcPersian?
    case Catalan => m.MarcCatalan?
    case Thai => m.MarcThai?
    case Vietnamese => m.MarcVietnamese?
    case Indonesian => m.MarcIndonesian?
    case Malay => m.MarcMalay?
    case UnknownLanguage => m.MarcOther?
  }

  lemma MediaTypesAgree(rt: RecordType, mt: MediaType)
    ensures ReadAs(rt, MediaTypeOf(rt)) && WrittenAs(mt, RecordTypeOf(mt))
  {
  }

  lemma RelatorsAgree(r: Relator, f: Function)
    ensures SameRelator(r, FunctionOf(r)) && SameRelator(RelatorOf(f), f) && !RelatorOf(f).RelOther?
  {
  }

  lemma AudiencesAgree(t: TargetAudience, a: AudienceType)
    ensures SameAudience(t, AudienceOf(t)) && SameAudience(TargetAudienceOf(a), a)
  {
  }

  lemma LanguageReadAgrees(m: MarcLanguage)
    ensures SameLanguage(m, LanguageOf(m))
  {
  }

  lemma LanguageWrittenAgrees(l: Language)
    ensures SameLanguage(MarcLanguageOf(l), l)
    ensures l == UnknownLanguage ==> MarcLanguageOf(l) == MarcOther("")
  {
  }

  // ── Texts on the two sides ─────────────────────────────────────────────────

  /** `t` is the text without white space at its ends, and something is left of it. */
  ghost predicate TrimOf(t: string, o: Option<string>) {
    o.Some? && t != "" && IsTrimOf(t, o.value, IsWhitespace)
  }

  ghost predicate IsBlank(o: Option<string>) {
    forall t :: !TrimOf(t, o)
  }

  lemma TrimOfIff(t: string, o: Option<string>)
    ensures TrimOf(t, o) <==> NonBlank(o) == Some(t)
  {
    if o.Some? {
      TrimIff(t, o.value, IsWhitespace);
    }
  }

  lemma BlankIff(o: Option<string>)
    ensures IsBlank(o) <==> NonBlank(o).None?
    ensures NonBlank(o).Some? ==> TrimOf(NonBlank(o).value, o)
  {
    forall t ensures TrimOf(t, o) <==> NonBlank(o) == Some(t) {
      TrimOfIff(t, o);
    }
  }

  /** A printed volume number, if there is one. */
  predicate VolumeWritten(v: Option<Volume>, text: Option<string>) {
    text == if v.Some? then Some(IntToString(v.value)) else None
  }

  predicate VolumeRead(text: Option<string>, v: Option<Volume>) {
    v == if text.Some? then ExtractVolumeNumber(text.value) else None
  }

  // ── Imported biblios ───────────────────────────────────────────────────────

  lemma ImportedLeader(r: MarcRecord)
    ensures var b := ImportedBiblio(r);
      && ReadAs(r.leader.recordType, b.mediaType) && b.isValid == Some(r.valid)
      && b.marcRecord == Some(r.(items := []))
  {
    MediaTypesAgree(r.leader.recordType, All);
  }

  predicate IsPerson(a: Agent) {
    a.Person?
  }

  /** The main entry and the added ones. */
  function Entries(r: Responsibility): seq<Agent> {
    if r.mainEntry.Some? then [r.mainEntry.value] + r.addedEntries else r.addedEntries
  }

  predicate PersonRead(a: Agent, c: Contributor) {
    && a.Person? && c.lastname == Some(a.name) && c.firstname == a.forename
    && c.id == 0 && c.key.None? && c.bio.None? && c.notes.None?
    && (c.function_.Some? <==> a.relator.Some?)
    && (a.relator.Some? ==> SameRelator(a.relator.value, c.function_.value))
  }

  lemma OnePersonRead(a: Agent)
    requires a.Person?
    ensures PersonRead(a, ImportAuthor(a).value)
  {
    if a.relator.Some? {
      RelatorsAgree(a.relator.value, Author);
    }
  }

  /** The authors are the personal entries, in order. */
  lemma ImportedAuthors(r: MarcRecord)
    ensures var persons, authors := Filter(Entries(r.responsibility), IsPerson), ImportedBiblio(r).authors;
      |authors| == |persons| && forall i :: 0 <= i < |authors| ==> PersonRead(persons[i], authors[i])
  {
    var entries := Entries(r.responsibility);
    assert Agents(r.responsibility) == entries;
    FilterMapPairs(entries, ImportAuthor, IsPerson);
    var persons := Filter(entries, IsPerson);
    FilterMembers(entries, IsPerson);
    forall i | 0 <= i < |persons| ensures PersonRead(persons[i], ImportedBiblio(r).authors[i]) {
      assert persons[i] in persons;
      OnePersonRead(persons[i]);
    }
  }

  predicate IsTitledSeries(l: LinkedRecord) {
    l.linkType == Some(SeriesLink) && l.title.Some?
  }

  predicate SerieRead(title: string, issn: Option<string>, volume: Option<string>, s: Serie) {
    && s.name == Some(title) && s.issn == issn && VolumeRead(volume, s.volumeNumber)
    && s.id.None? && s.key.None? && s.createdAt.None? && s.updatedAt.None?
  }

  lemma {:induction false} TitledLinksRead(links: seq<LinkedRecord>)
    ensures var titled, series := Filter(links, IsTitledSeries), FilterMap(links, ImportSeriesLink);
      |series| == |titled|
      && forall i :: 0 <= i < |series| ==>
           titled[i].title.Some? && SerieRead(titled[i].title.value, titled[i].issn, titled[i].volume, series[i])
  {
    FilterMapPairs(links, ImportSeriesLink, IsTitledSeries);
    FilterMembers(links, IsTitledSeries);
    var titled := Filter(links, IsTitledSeries);
    forall i | 0 <= i < |titled| ensures IsTitledSeries(titled[i]) {
      assert titled[i] in titled;
    }
  }

  /** The series are the titled links, or the statements if there is no such link, in order. */
  lemma ImportedSeries(r: MarcRecord)
    ensures var titled, series, statements := Filter(r.links, IsTitledSeries), ImportedBiblio(r).series, r.description.series;
      if titled != [] then
        |series| == |titled|
        && forall i :: 0 <= i < |series| ==>
             titled[i].title.Some? && SerieRead(titled[i].title.value, titled[i].issn, titled[i].volume, series[i])
      else
        |series| == |statements|
        && forall i :: 0 <= i < |series| ==> SerieRead(statements[i].title, statements[i].issn, statements[i].volume, series[i])
  {
    TitledLinksRead(r.links);
    StatementsPairs(r.description.series);
  }

  lemma ImportedVolumes(r: MarcRecord)
    ensures var b := ImportedBiblio(r);
      && |b.seriesVolumeNumbers| == |b.series|
      && forall i :: 0 <= i < |b.series| ==> b.seriesVolumeNumbers[i] == b.series[i].volumeNumber
  {
  }

  lemma {:induction false} StatementsPairs(statements: seq<SeriesStatement>)
    ensures var imported := FilterMap(statements, ImportSeriesStatement);
      && |imported| == |statements|
      && forall i :: 0 <= i < |statements| ==> Some(imported[i]) == ImportSeriesStatement(statements[i])
  {
    if statements != [] {
      StatementsPairs(statements[1..]);
    }
  }

  predicate IsFirstSetLevel(links: seq<LinkedRecord>, k: int) {
    0 <= k < |links| && links[k].linkType == Some(SetLevel)
    && forall j :: 0 <= j < k ==> links[j].linkType != Some(SetLevel)
  }

  predicate CollectionRead(l: LinkedRecord, c: Collection) {
    && c.name == l.title && c.issn == l.issn && VolumeRead(l.volume, c.volumeNumber)
    && c.id.None? && c.key.None? && c.secondaryTitle.None? && c.tertiaryTitle.None?
    && c.createdAt.None? && c.updatedAt.None?
  }

  /** The collection is the first set-level link, if it has a title. */
  lemma ImportedCollection(r: MarcRecord, k: nat)
    ensures (forall l :: l in r.links ==> l.linkType != Some(SetLevel)) ==> ImportedBiblio(r).collections == []
    ensures IsFirstSetLevel(r.links, k) ==>
              var b := ImportedBiblio(r);
              if r.links[k].title.None? then b.collections == [] && b.collectionVolumeNumbers == []
              else |b.collections| == 1 && CollectionRead(r.links[k], b.collections[0])
                   && b.collectionVolumeNumbers == [b.collections[0].volumeNumber]
  {
    FirstSetLevelIs(r.links, k);
  }

  lemma {:induction false} FirstSetLevelIs(links: seq<LinkedRecord>, k: nat)
    ensures (forall l :: l in links ==> l.linkType != Some(SetLevel)) ==> FirstSetLevel(links).None?
    ensures IsFirstSetLevel(links, k) ==> FirstSetLevel(links) == Some(links[k])
  {
    if links != [] {
      FirstSetLevelIs(links[1..], if k > 0 then k - 1 else 0);
      assert links[0] in links;
      if IsFirstSetLevel(links, k) && k > 0 {
        assert links[0].linkType != Some(SetLevel);
        assert IsFirstSetLevel(links[1..], k - 1) by {
          assert forall j :: 0 <= j < k - 1 ==> links[1..][j] == links[j + 1];
        }
      }
    }
  }

  /** A copy made of a local item; its note joins section and document type. */
  predicate CopyRead(m: MarcItem, i: Item) {
    && i.barcode == m.barcode && i.callNumber == m.callNumber && i.sourceName == m.library && i.borrowable
    && (m.section.Some? && m.documentType.Some? ==>
          i.notes == Some(m.section.value + " \U{2014} " + m.documentType.value))
    && (m.section.Some? && m.documentType.None? ==> i.notes == m.section)
    && (m.section.None? ==> i.notes == m.documentType)
    && i.id.None? && i.biblioId.None? && i.sourceId.None? && i.volumeDesignation.None? && i.place.None?
    && i.circulationStatus.None? && i.price.None? && i.archivedAt.None? && !i.borrowed && i.loanId.None?
  }

  /** The copies are the local items, in order. */
  lemma ImportedCopies(r: MarcRecord)
    ensures var items := ImportedBiblio(r).items;
      |items| == |r.items| && forall i :: 0 <= i < |items| ==> CopyRead(r.items[i], items[i])
  {
  }

  /** Only the first ISBN counts. */
  lemma ImportedIsbn(r: MarcRecord)
    ensures var kept := if r.isbns == [] then [] else Map(Filter(r.isbns[0].value, IsAsciiAlphanumeric), ToAsciiUpper);
      if kept == [] then ImportedBiblio(r).isbn.None? else ImportedBiblio(r).isbn.Some? && ImportedBiblio(r).isbn.value == kept
  {
    if r.isbns != [] {
      IsbnKeepsLettersAndDigits(r.isbns[0].value);
    }
  }

  /** Title, subject, keywords, publication and physical description: of several, the first counts. */
  lemma ImportedDescription(r: MarcRecord)
    ensures var b, d := ImportedBiblio(r), r.description;
      && (d.title.Some? ==> b.title == Some(d.title.value.main)) && (d.title.None? ==> b.title.None?)
      && (if r.indexing.subjects == [] then b.subject.None? else b.subject == Some(r.indexing.subjects[0].value))
      && (if r.indexing.uncontrolledTerms == [] then b.keywords.None? else b.keywords == Some(r.indexing.uncontrolledTerms))
      && (if d.publication == [] then b.edition.None? && b.publicationDate.None?
          else
            && b.publicationDate == d.publication[0].date && b.edition.Some?
            && b.edition.value.publisherName == d.publication[0].publisher
            && b.edition.value.placeOfPublication == d.publication[0].place
            && b.edition.value.date == d.publication[0].date)
      && (d.physicalDescription.None? ==> b.pageExtent.None? && b.format.None? && b.accompanyingMaterial.None?)
      && (d.physicalDescription.Some? ==>
            && b.pageExtent == d.physicalDescription.value.extent && b.format == d.physicalDescription.value.dimensions
            && b.accompanyingMaterial == d.physicalDescription.value.accompanyingMaterial)
  {
  }

  /** The first note of a kind. */
  ghost predicate NoteRead(notes: seq<Note>, kind: NoteType, text: Option<string>) {
    match text
    case None => forall n :: n in notes ==> n.noteType != Some(kind)
    case Some(t) => exists k :: FirstNote(notes, kind, k) && notes[k].text == t
  }

  predicate FirstNote(notes: seq<Note>, kind: NoteType, k: int) {
    0 <= k < |notes| && notes[k].noteType == Some(kind)
    && forall j :: 0 <= j < k ==> notes[j].noteType != Some(kind)
  }

  lemma {:induction false} NoteIsRead(notes: seq<Note>, kind: NoteType)
    ensures NoteRead(notes, kind, NoteText(notes, kind))
  {
    if notes != [] {
      var rest := notes[1..];
      NoteIsRead(rest, kind);
      if notes[0].noteType == Some(kind) {
        assert FirstNote(notes, kind, 0);
      } else if NoteText(notes, kind).Some? {
        var k :| FirstNote(rest, kind, k) && rest[k].text == NoteText(notes, kind).value;
        assert forall j :: 0 < j <= k ==> notes[j] == rest[j - 1];
        assert FirstNote(notes, kind, k + 1);
      }
    }
  }

  lemma ImportedNotes(r: MarcRecord)
    ensures var b := ImportedBiblio(r);
      NoteRead(r.notes, GeneralNote, b.notes) && NoteRead(r.notes, Contents, b.tableOfContents)
      && NoteRead(r.notes, Summary, b.abstract_)
  {
    NoteIsRead(r.notes, GeneralNote);
    NoteIsRead(r.notes, Contents);
    NoteIsRead(r.notes, Summary);
  }

  /** The first Dewey number, trimmed, if something is left of it. */
  ghost predicate DeweyRead(cs: seq<Classification>, dewey: Option<string>) {
    || ((forall c :: c in cs ==> c.scheme != Dewey) && dewey.None?)
    || exists k :: 0 <= k < |cs| && cs[k].scheme == Dewey && (forall j :: 0 <= j < k ==> cs[j].scheme != Dewey)
                   && if dewey.Some? then TrimOf(dewey.value, Some(cs[k].number)) else IsBlank(Some(cs[k].number))
  }

  lemma {:induction false} FirstDeweyIs(cs: seq<Classification>)
    ensures FirstDewey(cs).None? ==> forall c :: c in cs ==> c.scheme != Dewey
    ensures FirstDewey(cs).Some? ==>
              exists k :: 0 <= k < |cs| && cs[k].scheme == Dewey && (forall j :: 0 <= j < k ==> cs[j].scheme != Dewey)
                          && cs[k].number == FirstDewey(cs).value
  {
    if cs != [] && cs[0].scheme != Dewey {
      var rest := cs[1..];
      FirstDeweyIs(rest);
      if FirstDewey(cs).Some? {
        var k :| 0 <= k < |rest| && rest[k].scheme == Dewey && (forall j :: 0 <= j < k ==> rest[j].scheme != Dewey)
                 && rest[k].number == FirstDewey(cs).value;
        assert forall j :: 0 < j <= k ==> cs[j] == rest[j - 1];
        assert cs[k + 1] == rest[k];
      }
    }
  }

  lemma ImportedDewey(r: MarcRecord)
    ensures DeweyRead(r.indexing.classifications, ImportedBiblio(r).dewey)
  {
    var cs := r.indexing.classifications;
    FirstDeweyIs(cs);
    if FirstDewey(cs).Some? {
      BlankIff(Some(FirstDewey(cs).value));
    }
  }

  /** Languages and audience: the first of each. */
  lemma ImportedCodes(r: MarcRecord)
    ensures var b, c := ImportedBiblio(r), r.coded;
      && (if c.languages == [] then b.lang.None? else b.lang.Some? && SameLanguage(c.languages[0], b.lang.value))
      && (if c.originalLanguages == [] then b.langOrig.None?
          else b.langOrig.Some? && SameLanguage(c.originalLanguages[0], b.langOrig.value))
      && (if c.targetAudience.None? then b.audienceType.None?
          else b.audienceType.Some? && SameAudience(c.targetAudience.value, b.audienceType.value))
  {
    if r.coded.languages != [] {
      LanguageReadAgrees(r.coded.languages[0]);
    }
    if r.coded.originalLanguages != [] {
      LanguageReadAgrees(r.coded.originalLanguages[0]);
    }
    if r.coded.targetAudience.Some? {
      AudiencesAgree(r.coded.targetAudience.value, Adult);
    }
  }

  // ── Exported records ───────────────────────────────────────────────────────

  /** Serial exactly for periodicals, always new, and valid unless said otherwise. */
  lemma ExportedLeader(b: Biblio)
    requires b.marcRecord.None?
    ensures var r := ExportedRecord(b);
      && r.leader.status == New && WrittenAs(b.mediaType, r.leader.recordType)
      && r.leader.level == (if b.mediaType == Periodic then Serial else Monograph)
      && (r.valid <==> b.isValid != Some(false))
  {
    MediaTypesAgree(LanguageMaterial, b.mediaType);
  }

  lemma ExportedIsbn(b: Biblio)
    requires b.marcRecord.None?
    ensures ExportedRecord(b).isbns
         == if b.isbn.Some? && b.isbn.value != "" then [MarcIsbn(b.isbn.value, None)] else []
  {
    if b.isbn.Some? {
      assert TrimmedBy(b.isbn.value, IsWhitespace);
      TrimByTrims(b.isbn.value, IsWhitespace);
    }
  }

  predicate HasName(a: Contributor) {
    NonBlank(a.lastname).Some? || NonBlank(a.firstname).Some?
  }

  /** An author has a name when one of the two is not blank. */
  lemma HasNameIff(a: Contributor)
    ensures HasName(a) <==> !IsBlank(a.lastname) || !IsBlank(a.firstname)
  {
    BlankIff(a.lastname);
    BlankIff(a.firstname);
  }

  /** A heading: the surname, or a lone first name in its place. */
  ghost predicate PersonWritten(a: Contributor, p: Agent) {
    && p.Person? && p.dates.None? && p.numeration.None? && p.titlesAssociated.None? && p.fullerForm.None?
    && (p.relator.Some? <==> a.function_.Some?)
    && (a.function_.Some? ==> SameRelator(p.relator.value, a.function_.value) && !p.relator.value.RelOther?)
    && if IsBlank(a.lastname) then TrimOf(p.name, a.firstname) && p.forename.None?
       else TrimOf(p.name, a.lastname)
            && if p.forename.Some? then TrimOf(p.forename.value, a.firstname) else IsBlank(a.firstname)
  }

  lemma OnePersonWritten(a: Contributor)
    requires HasName(a)
    ensures ExportAuthor(a).Some? && PersonWritten(a, ExportAuthor(a).value)
  {
    BlankIff(a.lastname);
    BlankIff(a.firstname);
    if a.function_.Some? {
      RelatorsAgree(RelAuthor, a.function_.value);
    }
  }

  /** The headings are those of the authors that have a name, in order; the first is the main entry. */
  lemma ExportedAuthors(b: Biblio)
    requires b.marcRecord.None?
    ensures var r, named := ExportedRecord(b).responsibility, Filter(b.authors, HasName);
      && (r.mainEntry.None? ==> r.addedEntries == [])
      && |Entries(r)| == |named|
      && forall i :: 0 <= i < |named| ==> PersonWritten(named[i], Entries(r)[i])
  {
    var agents := FilterMap(b.authors, ExportAuthor);
    FilterMapPairs(b.authors, ExportAuthor, HasName);
    FilterMembers(b.authors, HasName);
    assert Entries(ExportedRecord(b).responsibility) == agents;
    var named := Filter(b.authors, HasName);
    forall i | 0 <= i < |named| ensures PersonWritten(named[i], agents[i]) {
      assert named[i] in named;
      OnePersonWritten(named[i]);
    }
  }

  predicate IsNamed(s: Serie) {
    s.name.Some? && s.name.value != ""
  }

  predicate SerieWritten(s: Serie, t: SeriesStatement) {
    s.name == Some(t.title) && t.issn == s.issn && VolumeWritten(s.volumeNumber, t.volume)
  }

  /** The statements are those of the named series, in order. */
  lemma ExportedSeries(b: Biblio)
    requires b.marcRecord.None?
    ensures var statements, named := ExportedRecord(b).description.series, Filter(b.series, IsNamed);
      |statements| == |named| && forall i :: 0 <= i < |named| ==> SerieWritten(named[i], statements[i])
  {
    FilterMapPairs(b.series, ExportSerie, IsNamed);
    FilterMembers(b.series, IsNamed);
    var named := Filter(b.series, IsNamed);
    forall i | 0 <= i < |named| ensures IsNamed(named[i]) {
      assert named[i] in named;
    }
  }

  /** A collection that can be told from others: by its id, a key or a name. */
  predicate IsIdentified(c: Collection) {
    c.id.Some? || (c.key.Some? && c.key.value != "") || (c.name.Some? && c.name.value != "")
  }

  /** The identifier is the printed id, else the key, else the name. */
  predicate CollectionWritten(c: Collection, l: LinkedRecord) {
    && l.linkType == Some(SetLevel) && l.title == c.name && l.issn == c.issn && VolumeWritten(c.volumeNumber, l.volume)
    && (c.id.Some? ==> l.identifier == IntToString(c.id.value))
    && (c.id.None? && c.key.Some? ==> l.identifier == c.key.value)
    && (c.id.None? && c.key.None? && c.name.Some? ==> l.identifier == c.name.value)
    && l.edition.None? && l.qualifier.None? && l.relationshipInfo.None?
  }

  /** The links are those of the identified collections, all of them and in order. */
  lemma ExportedCollections(b: Biblio)
    requires b.marcRecord.None?
    ensures var links, kept := ExportedRecord(b).links, Filter(b.collections, IsIdentified);
      |links| == |kept| && forall i :: 0 <= i < |kept| ==> CollectionWritten(kept[i], links[i])
  {
    FilterMapPairs(b.collections, ExportCollection, IsIdentified);
    FilterMembers(b.collections, IsIdentified);
    var kept := Filter(b.collections, IsIdentified);
    forall i | 0 <= i < |kept| ensures IsIdentified(kept[i]) {
      assert kept[i] in kept;
    }
  }

  /** Title, publication (the edition before the bare date) and physical description. */
  lemma ExportedDescription(b: Biblio)
    requires b.marcRecord.None?
    ensures var d := ExportedRecord(b).description;
      && (b.title.None? ==> d.title.None?)
      && (b.title.Some? ==>
            && d.title.Some? && d.title.value.main == b.title.value && d.title.value.parallel == []
            && d.title.value.subtitle.None? && d.title.value.responsibility.None? && d.title.value.medium.None?
            && d.title.value.numberOfPart.None? && d.title.value.nameOfPart.None?)
      && (b.edition.None? && b.publicationDate.None? ==> d.publication == [])
      && (b.edition.Some? || b.publicationDate.Some? ==>
            && |d.publication| == 1
            && d.publication[0].date == (if b.edition.Some? then b.edition.value.date else b.publicationDate)
            && d.publication[0].place == (if b.edition.Some? then b.edition.value.placeOfPublication else None)
            && d.publication[0].publisher == (if b.edition.Some? then b.edition.value.publisherName else None)
            && d.publication[0].function_.None? && d.publication[0].manufacturePlace.None?
            && d.publication[0].manufacturer.None? && d.publication[0].manufactureDate.None?)
      && (d.physicalDescription.Some? <==> b.pageExtent.Some? || b.format.Some? || b.accompanyingMaterial.Some?)
      && (d.physicalDescription.Some? ==>
            && d.physicalDescription.value.extent == b.pageExtent
            && d.physicalDescription.value.dimensions == b.format
            && d.physicalDescription.value.accompanyingMaterial == b.accompanyingMaterial
            && d.physicalDescription.value.otherPhysicalDetails.None?)
  {
  }

  /** General note, contents and summary, in this order, as far as there are any. */
  lemma ExportedNotes(b: Biblio)
    requires b.marcRecord.None?
    ensures var notes := ExportedRecord(b).notes;
      var c := if b.notes.Some? then 1 else 0;
      var s := if b.tableOfContents.Some? then c + 1 else c;
      && |notes| == (if b.abstract_.Some? then s + 1 else s)
      && (b.notes.Some? ==> notes[0] == Note(Some(GeneralNote), b.notes.value))
      && (b.tableOfContents.Some? ==> notes[c] == Note(Some(Contents), b.tableOfContents.value))
      && (b.abstract_.Some? ==> notes[s] == Note(Some(Summary), b.abstract_.value))
  {
  }

  predicate IsNonEmpty(s: string) {
    s != ""
  }

  /** Subject, keywords without the empty ones, and the trimmed Dewey number. */
  lemma ExportedIndexing(b: Biblio)
    requires b.marcRecord.None?
    ensures var x := ExportedRecord(b).indexing;
      && x.subjects == (if b.subject.Some? then [Subject(Topical, b.subject.value)] else [])
      && x.uncontrolledTerms == (if b.keywords.Some? then Filter(b.keywords.value, IsNonEmpty) else [])
      && (if IsBlank(b.dewey) then x.classifications == []
          else |x.classifications| == 1 && x.classifications[0].scheme == Dewey
               && TrimOf(x.classifications[0].number, b.dewey))
  {
    if b.keywords.Some? {
      TermsAreFiltered(b.keywords.value);
    }
    BlankIff(b.dewey);
  }

  lemma {:induction false} TermsAreFiltered(keywords: seq<string>)
    ensures FilterMap(keywords, NonEmpty) == Filter(keywords, IsNonEmpty)
  {
    if keywords != [] {
      TermsAreFiltered(keywords[1..]);
    }
  }

  lemma ExportedCodes(b: Biblio)
    requires b.marcRecord.None?
    ensures var c := ExportedRecord(b).coded;
      && |c.languages| == (if b.lang.Some? then 1 else 0)
      && (b.lang.Some? ==> SameLanguage(c.languages[0], b.lang.value))
      && |c.originalLanguages| == (if b.langOrig.Some? then 1 else 0)
      && (b.langOrig.Some? ==> SameLanguage(c.originalLanguages[0], b.langOrig.value))
      && (c.targetAudience.Some? <==> b.audienceType.Some?)
      && (b.audienceType.Some? ==> SameAudience(c.targetAudience.value, b.audienceType.value))
  {
    if b.lang.Some? {
      LanguageWrittenAgrees(b.lang.value);
    }
    if b.langOrig.Some? {
      LanguageWrittenAgrees(b.langOrig.value);
    }
    if b.audienceType.Some? {
      AudiencesAgree(TgtAdult, b.audienceType.value);
    }
  }

  /** The local items are the copies, in order, without dates. */
  lemma ExportedCopies(b: Biblio)
    requires b.marcRecord.None?
    ensures var items := ExportedRecord(b).items;
      |items| == |b.items|
      && forall i :: 0 <= i < |items| ==>
           && items[i].library == b.items[i].sourceName && items[i].barcode == b.items[i].barcode
           && items[i].callNumber == b.items[i].callNumber && items[i].documentType == b.items[i].notes
           && items[i].section.None? && items[i].loanDate.None? && items[i].returnDate.None?
  {
  }
}
