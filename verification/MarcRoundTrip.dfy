/**
 What survives a trip from biblio to MARC record and back: the normal form that the first trip
 reaches, when a second trip changes it, and what stored records and loan exports preserve.
 */
module MarcRoundTrip {
  import opened Options
  import opened Sequences
  import opened Text
  import opened Decimal
  import opened MarcModel
  import opened MarcTranslator

  function Detached(b: Biblio): Biblio {
    b.(marcRecord := None)
  }

  /** Export to MARC, import again, and forget the attached record. */
  function RoundTrip(b: Biblio): Biblio {
    Detached(ImportedBiblio(ExportedRecord(b)))
  }

  // ── The normal form, field by field ────────────────────────────────────────

  /** The media types that a MARC record type can tell apart. */
  function Coarse(mt: MediaType): MediaType {
    match mt
    case PrintedText | Comics | Periodic | Unknown | All => PrintedText
    case Video | VideoTape | VideoDvd => Video
    case Audio | AudioNonMusic | AudioNonMusicTape | AudioNonMusicCd => Audio
    case AudioMusic | AudioMusicTape | AudioMusicCd => AudioMusic
    case Multimedia | CdRom => Multimedia
    case Images => Images
  }

  /** Trimmed names; a missing surname is filled by the first name; other details are lost. */
  function NormalAuthor(a: Contributor): Option<Contributor> {
    var last := NonBlank(a.lastname);
    var first := NonBlank(a.firstname);
    if last.None? && first.None? then None
    else if last.None? then Some(Contributor(0, None, first, None, None, None, a.function_))
    else Some(Contributor(0, None, last, first, None, None, a.function_))
  }

  function NormalSerie(s: Serie): Option<Serie> {
    if s.name.None? || s.name.value == "" then None
    else Some(Serie(None, None, s.name, s.issn, None, None, s.volumeNumber))
  }

  function FirstExported(cs: seq<Collection>): Option<Collection> {
    if cs == [] then None else if ExportsCollection(cs[0]) then Some(cs[0]) else FirstExported(cs[1..])
  }

  /** Only the first exported collection counts, and only if it has a name. */
  function NormalCollections(cs: seq<Collection>): seq<Collection> {
    match FirstExported(cs)
    case None => []
    case Some(c) =>
      if c.name.None? then []
      else [Collection(None, None, c.name, None, None, c.issn, None, None, c.volumeNumber)]
  }

  /** The edition's own date replaces the publication date, even when the edition has none. */
  function NormalEdition(b: Biblio): Option<Edition> {
    match b.edition
    case Some(e) => Some(Edition(None, e.publisherName, e.placeOfPublication, e.date, None, None))
    case None =>
      if b.publicationDate.None? then None
      else Some(Edition(None, None, None, b.publicationDate, None, None))
  }

  function NormalDate(b: Biblio): Option<string> {
    if b.edition.Some? then b.edition.value.date else b.publicationDate
  }

  /** A copy keeps its barcode, call number, source name and notes. */
  function NormalItem(i: Item): Item {
    Item(None, None, None, i.barcode, i.callNumber, None, None, true, None, i.notes, None,
         None, None, None, i.sourceName, false, None)
  }

  function NormalForm(b: Biblio): Biblio {
    var series := FilterMap(b.series, NormalSerie);
    var collections := NormalCollections(b.collections);
    var keywords := ExportKeywords(b.keywords);
    b.(id := None, mediaType := Coarse(b.mediaType),
       isbn := if b.isbn == Some([]) then None else b.isbn,
       dewey := NonBlank(b.dewey),
       publicationDate := NormalDate(b), edition := NormalEdition(b),
       keywords := if keywords == [] then None else Some(keywords),
       isValid := Some(b.isValid.None? || b.isValid.value),
       seriesIds := [], series := series, seriesVolumeNumbers := Map(series, SerieVolume),
       collectionIds := [], collections := collections,
       collectionVolumeNumbers := Map(collections, CollectionVolume),
       editionId := None, createdAt := None, updatedAt := None, archivedAt := None,
       authors := FilterMap(b.authors, NormalAuthor), items := Map(b.items, NormalItem),
       marcRecord := None)
  }

  // ── One round trip reaches the normal form ─────────────────────────────────

  lemma MediaTypesCoarsen(mt: MediaType)
    ensures MediaTypeOf(RecordTypeOf(mt)) == Coarse(mt)
  {
  }

  lemma RelatorsRoundTrip(f: Function)
    ensures FunctionOf(RelatorOf(f)) == f
  {
  }

  lemma AudiencesRoundTrip(a: AudienceType)
    ensures AudienceOf(TargetAudienceOf(a)) == a
  {
  }

  lemma LanguagesRoundTrip(l: Language)
    ensures LanguageOf(MarcLanguageOf(l)) == l
  {
  }

  /** A printed volume number is read back. */
  lemma PrintedVolume(v: Volume)
    ensures ExtractVolumeNumber(PrintVolume(v)) == Some(v)
  {
    var s := IntToString(v);
    assert s[0] in s && s[|s| - 1] in s;
    TrimByTrims(s, IsWhitespace);
    I16RoundTrip(v);
  }

  lemma IsbnRoundTrip(i: Isbn)
    ensures AndThen(First(OptionToSeq(ExportIsbn(i))), (m: MarcIsbn) => ImportIsbn(m.value))
         == if i == [] then None else Some(i)
  {
    assert TrimmedBy(i, IsWhitespace);
    TrimByTrims(i, IsWhitespace);
  }

  lemma NonBlankTwice(o: Option<string>)
    ensures NonBlank(NonBlank(o)) == NonBlank(o)
  {
    if o.Some? {
      TrimByTwice(o.value, IsWhitespace);
    }
  }

  lemma AuthorRoundTrip(a: Contributor)
    ensures AndThen(ExportAuthor(a), ImportAuthor) == NormalAuthor(a)
  {
    if a.function_.Some? {
      RelatorsRoundTrip(a.function_.value);
    }
  }

  lemma AuthorsRoundTrip(authors: seq<Contributor>)
    ensures FilterMap(Agents(ExportResponsibility(authors)), ImportAuthor) == FilterMap(authors, NormalAuthor)
  {
    var agents := FilterMap(authors, ExportAuthor);
    assert Agents(ExportResponsibility(authors)) == agents;
    forall a ensures NormalAuthor(a) == AndThen(ExportAuthor(a), ImportAuthor) {
      AuthorRoundTrip(a);
    }
    FilterMapFusion(authors, ExportAuthor, ImportAuthor, NormalAuthor);
  }

  lemma VolumeRoundTrip(v: Option<Volume>)
    ensures AndThen(OptionMap(v, PrintVolume), ExtractVolumeNumber) == v
  {
    if v.Some? {
      PrintedVolume(v.value);
    }
  }

  lemma SerieRoundTrip(s: Serie)
    ensures AndThen(ExportSerie(s), ImportSeriesStatement) == NormalSerie(s)
  {
    VolumeRoundTrip(s.volumeNumber);
  }

  lemma SeriesRoundTrip(series: seq<Serie>)
    ensures FilterMap(FilterMap(series, ExportSerie), ImportSeriesStatement) == FilterMap(series, NormalSerie)
  {
    forall s ensures NormalSerie(s) == AndThen(ExportSerie(s), ImportSeriesStatement) {
      SerieRoundTrip(s);
    }
    FilterMapFusion(series, ExportSerie, ImportSeriesStatement, NormalSerie);
  }

  /** An exported collection link is never taken for a series link. */
  lemma {:induction false} NoSeriesLinks(cs: seq<Collection>)
    ensures FilterMap(FilterMap(cs, ExportCollection), ImportSeriesLink) == []
  {
    if cs != [] {
      NoSeriesLinks(cs[1..]);
      FilterMapConcat(OptionToSeq(ExportCollection(cs[0])), FilterMap(cs[1..], ExportCollection), ImportSeriesLink);
    }
  }

  lemma {:induction false} CollectionsRoundTrip(cs: seq<Collection>)
    ensures OptionToSeq(AndThen(FirstSetLevel(FilterMap(cs, ExportCollection)), ImportCollectionLink))
         == NormalCollections(cs)
  {
    if cs != [] {
      if ExportsCollection(cs[0]) {
        VolumeRoundTrip(cs[0].volumeNumber);
        assert FirstSetLevel(FilterMap(cs, ExportCollection)) == ExportCollection(cs[0]);
      } else {
        CollectionsRoundTrip(cs[1..]);
        assert FilterMap(cs, ExportCollection) == FilterMap(cs[1..], ExportCollection);
      }
    }
  }

  lemma NotesRoundTrip(general: Option<string>, contents: Option<string>, summary: Option<string>)
    ensures var notes := ExportNote(GeneralNote, general) + ExportNote(Contents, contents) + ExportNote(Summary, summary);
      && NoteText(notes, GeneralNote) == general
      && NoteText(notes, Contents) == contents
      && NoteText(notes, Summary) == summary
  {
    NotesReadBack(general, contents, summary, GeneralNote);
    NotesReadBack(general, contents, summary, Contents);
    NotesReadBack(general, contents, summary, Summary);
  }

  lemma NotesReadBack(general: Option<string>, contents: Option<string>, summary: Option<string>, kind: NoteType)
    requires kind == GeneralNote || kind == Contents || kind == Summary
    ensures NoteText(ExportNote(GeneralNote, general) + ExportNote(Contents, contents) + ExportNote(Summary, summary), kind)
         == if kind == GeneralNote then general else if kind == Contents then contents else summary
  {
    var g, c, s := ExportNote(GeneralNote, general), ExportNote(Contents, contents), ExportNote(Summary, summary);
    NoteTextConcat(g + c, s, kind);
    NoteTextConcat(g, c, kind);
    OneNote(GeneralNote, general, kind);
    OneNote(Contents, contents, kind);
    OneNote(Summary, summary, kind);
  }

  lemma OneNote(written: NoteType, text: Option<string>, kind: NoteType)
    ensures NoteText(ExportNote(written, text), kind) == if written == kind then text else None
  {
  }

  lemma {:induction false} NoteTextConcat(a: seq<Note>, b: seq<Note>, kind: NoteType)
    ensures NoteText(a + b, kind) == if NoteText(a, kind).Some? then NoteText(a, kind) else NoteText(b, kind)
  {
    if a == [] {
      assert a + b == b;
    } else {
      assert (a + b)[1..] == a[1..] + b;
      NoteTextConcat(a[1..], b, kind);
    }
  }

  lemma ItemsRoundTrip(items: seq<Item>)
    ensures Map(ExportItems(items, None, None, None), ImportItem) == Map(items, NormalItem)
  {
  }

  lemma DeweyRoundTrip(dewey: Option<string>)
    ensures AndThen(FirstDewey(ExportDewey(dewey)), NonEmptyTrimmed) == NonBlank(dewey)
  {
    NonBlankTwice(dewey);
  }

  lemma RelationsRoundTrip(b: Biblio)
    requires b.marcRecord.None?
    ensures var r, n := RoundTrip(b), NormalForm(b);
      && r.authors == n.authors && r.series == n.series && r.collections == n.collections
      && r.items == n.items && r.seriesVolumeNumbers == n.seriesVolumeNumbers
      && r.collectionVolumeNumbers == n.collectionVolumeNumbers
  {
    AuthorsRoundTrip(b.authors);
    SeriesRoundTrip(b.series);
    NoSeriesLinks(b.collections);
    CollectionsRoundTrip(b.collections);
    ItemsRoundTrip(b.items);
  }

  lemma LanguageRoundTrip(l: Option<Language>)
    ensures OptionMap(First(OptionToSeq(OptionMap(l, MarcLanguageOf))), LanguageOf) == l
  {
    if l.Some? {
      LanguagesRoundTrip(l.value);
    }
  }

  lemma AudienceRoundTrip(a: Option<AudienceType>)
    ensures OptionMap(OptionMap(a, TargetAudienceOf), AudienceOf) == a
  {
    if a.Some? {
      AudiencesRoundTrip(a.value);
    }
  }

  lemma CodedFieldsRoundTrip(b: Biblio)
    requires b.marcRecord.None?
    ensures var r, n := RoundTrip(b), NormalForm(b);
      && r.audienceType == n.audienceType && r.lang == n.lang && r.langOrig == n.langOrig
      && r.mediaType == n.mediaType
  {
    LanguageRoundTrip(b.lang);
    LanguageRoundTrip(b.langOrig);
    AudienceRoundTrip(b.audienceType);
    MediaTypesCoarsen(b.mediaType);
  }

  lemma IdentifiersRoundTrip(b: Biblio)
    requires b.marcRecord.None?
    ensures var r, n := RoundTrip(b), NormalForm(b);
      && r.isbn == n.isbn && r.dewey == n.dewey && r.isValid == n.isValid
  {
    if b.isbn.Some? {
      IsbnRoundTrip(b.isbn.value);
    }
    DeweyRoundTrip(b.dewey);
  }

  lemma TextFieldsRoundTrip(b: Biblio)
    requires b.marcRecord.None?
    ensures var r, n := RoundTrip(b), NormalForm(b);
      && r.title == n.title && r.subject == n.subject && r.keywords == n.keywords
      && r.tableOfContents == n.tableOfContents && r.abstract_ == n.abstract_ && r.notes == n.notes
  {
    NotesRoundTrip(b.notes, b.tableOfContents, b.abstract_);
  }

  lemma DescriptionRoundTrip(b: Biblio)
    requires b.marcRecord.None?
    ensures var r, n := RoundTrip(b), NormalForm(b);
      && r.publicationDate == n.publicationDate && r.edition == n.edition
      && r.pageExtent == n.pageExtent && r.format == n.format
      && r.accompanyingMaterial == n.accompanyingMaterial
  {
  }

  /** Exporting a biblio without a stored record and importing it again gives its normal form. */
  lemma RoundTripIsNormalForm(b: Biblio)
    requires b.marcRecord.None?
    ensures RoundTrip(b) == NormalForm(b)
  {
    RelationsRoundTrip(b);
    CodedFieldsRoundTrip(b);
    IdentifiersRoundTrip(b);
    TextFieldsRoundTrip(b);
    DescriptionRoundTrip(b);
    var r, n := RoundTrip(b), NormalForm(b);
    assert
      && r.id == n.id && r.seriesIds == n.seriesIds && r.editionId == n.editionId
      && r.collectionIds == n.collectionIds && r.createdAt == n.createdAt
      && r.updatedAt == n.updatedAt && r.archivedAt == n.archivedAt && r.marcRecord == n.marcRecord;
  }

  // ── When the normal form is stable ─────────────────────────────────────────

  /** The first collection that is exported has an empty name. */
  predicate FirstExportedHasEmptyName(cs: seq<Collection>) {
    var c := FirstExported(cs);
    c.Some? && c.value.name == Some("")
  }

  lemma {:induction false} KeywordsSettle(ks: seq<string>)
    ensures FilterMap(FilterMap(ks, NonEmpty), NonEmpty) == FilterMap(ks, NonEmpty)
  {
    FilterMapFusion(ks, NonEmpty, NonEmpty, NonEmpty);
  }

  lemma AuthorsSettle(authors: seq<Contributor>)
    ensures FilterMap(FilterMap(authors, NormalAuthor), NormalAuthor) == FilterMap(authors, NormalAuthor)
  {
    forall a ensures NormalAuthor(a) == AndThen(NormalAuthor(a), NormalAuthor) {
      NonBlankTwice(a.lastname);
      NonBlankTwice(a.firstname);
    }
    FilterMapFusion(authors, NormalAuthor, NormalAuthor, NormalAuthor);
  }

  lemma CollectionsSettle(cs: seq<Collection>)
    ensures FirstExportedHasEmptyName(cs) ==>
              |NormalCollections(cs)| == 1 && NormalCollections(NormalCollections(cs)) == []
    ensures !FirstExportedHasEmptyName(cs) ==> NormalCollections(NormalCollections(cs)) == NormalCollections(cs)
  {
    var n := NormalCollections(cs);
    if n != [] {
      var c := n[0];
      assert n == [c] && [c][1..] == [];
      assert FirstExported(n) == if c.name == Some("") then None else Some(c);
    }
  }

  lemma RelationsSettle(b: Biblio)
    ensures var n, m := NormalForm(b), NormalForm(NormalForm(b));
      && m.authors == n.authors && m.series == n.series && m.items == n.items
      && m.seriesVolumeNumbers == n.seriesVolumeNumbers && m.keywords == n.keywords
  {
    AuthorsSettle(b.authors);
    FilterMapFusion(b.series, NormalSerie, NormalSerie, NormalSerie);
    if b.keywords.Some? {
      KeywordsSettle(b.keywords.value);
    }
    assert Map(Map(b.items, NormalItem), NormalItem) == Map(b.items, NormalItem);
  }

  lemma CoarseTwice(mt: MediaType)
    ensures Coarse(Coarse(mt)) == Coarse(mt)
  {
  }

  lemma MediaTypeSettles(b: Biblio)
    ensures NormalForm(NormalForm(b)).mediaType == NormalForm(b).mediaType
  {
    CoarseTwice(b.mediaType);
  }

  lemma IsbnSettles(b: Biblio)
    ensures NormalForm(NormalForm(b)).isbn == NormalForm(b).isbn
  {
  }

  lemma DeweySettles(b: Biblio)
    ensures NormalForm(NormalForm(b)).dewey == NormalForm(b).dewey
  {
    NonBlankTwice(b.dewey);
  }

  lemma PublicationSettles(b: Biblio)
    ensures var n, m := NormalForm(b), NormalForm(NormalForm(b));
      && m.publicationDate == n.publicationDate && m.edition == n.edition
  {
  }

  /** A second normalisation changes nothing, unless it drops a collection with an empty name. */
  lemma NormalFormStable(b: Biblio)
    ensures NormalForm(NormalForm(b)) == NormalForm(b) <==> !FirstExportedHasEmptyName(b.collections)
    ensures FirstExportedHasEmptyName(b.collections) ==> NormalForm(NormalForm(b)).collections == []
    ensures FirstExportedHasEmptyName(b.collections) ==> |NormalForm(b).collections| == 1
  {
    RelationsSettle(b);
    MediaTypeSettles(b);
    IsbnSettles(b);
    DeweySettles(b);
    PublicationSettles(b);
    CollectionsSettle(b.collections);
    var n, m := NormalForm(b), NormalForm(NormalForm(b));
    assert
      && m.title == n.title && m.subject == n.subject && m.audienceType == n.audienceType
      && m.lang == n.lang && m.langOrig == n.langOrig && m.pageExtent == n.pageExtent
      && m.format == n.format && m.tableOfContents == n.tableOfContents && m.abstract_ == n.abstract_
      && m.accompanyingMaterial == n.accompanyingMaterial && m.notes == n.notes && m.isValid == n.isValid;
  }

  lemma FirstExportedIsExported(cs: seq<Collection>)
    ensures var c := FirstExported(cs); c.Some? ==> c.value in cs && ExportsCollection(c.value)
  {
  }

  /** Stability of the actual conversions, with the exact exception. */
  lemma {:induction false} SecondRoundTripStable(b: Biblio)
    requires b.marcRecord.None?
    ensures RoundTrip(RoundTrip(b)) == RoundTrip(b) <==> !FirstExportedHasEmptyName(b.collections)
  {
    RoundTripIsNormalForm(b);
    RoundTripIsNormalForm(NormalForm(b));
    NormalFormStable(b);
  }

  /** Without empty collection names, one round trip is enough for every biblio. */
  lemma {:induction false} NamedCollectionsSettleAtOnce(b: Biblio)
    requires b.marcRecord.None?
    requires forall c :: c in b.collections ==> c.name != Some("")
    ensures RoundTrip(RoundTrip(b)) == RoundTrip(b)
  {
    FirstExportedIsExported(b.collections);
    SecondRoundTripStable(b);
  }

  /** Two round trips are enough in every case. */
  lemma {:induction false} TwoRoundTripsSettle(b: Biblio)
    requires b.marcRecord.None?
    ensures RoundTrip(RoundTrip(RoundTrip(b))) == RoundTrip(RoundTrip(b))
  {
    RoundTripIsNormalForm(b);
    RoundTripIsNormalForm(NormalForm(b));
    RoundTripIsNormalForm(NormalForm(NormalForm(b)));
    NormalFormStable(b);
    NormalFormStable(NormalForm(b));
  }

  /** A biblio on which one round trip is not enough: an empty name carried by a collection with an id. */
  lemma {:induction false} EmptyCollectionNameIsUnstable(b: Biblio)
    requires b.marcRecord.None?
    requires b.collections == [Collection(Some(5), None, Some(""), None, None, None, None, None, None)]
    ensures |RoundTrip(b).collections| == 1 && RoundTrip(RoundTrip(b)).collections == []
  {
    RoundTripIsNormalForm(b);
    RoundTripIsNormalForm(NormalForm(b));
    assert FirstExported(b.collections) == Some(b.collections[0]);
    NormalFormStable(b);
  }

  // ── Stored records and loan exports ────────────────────────────────────────

  /**
   An imported record is exported again without its local items, and importing that export
   gives the same biblio except that its copies are gone.
   */
  lemma {:induction false} StoredRecordRoundTrip(r: MarcRecord)
    ensures ExportedRecord(ImportedBiblio(r)) == WithoutItems(r)
    ensures ImportedBiblio(ExportedRecord(ImportedBiblio(r))) == ImportedBiblio(r).(items := [])
    ensures ImportedBiblio(ExportedRecord(ImportedBiblio(r))) == ImportedBiblio(r) <==> r.items == []
  {
    assert |ImportedBiblio(r).items| == |r.items|;
  }

  /**
   A loan export lists the borrowed copies in order with the loan's dates, and is otherwise the
   biblio's own notice.
   */
  lemma LoanExportListsCopies(b: Biblio, start: string, expiry: string, returned: Option<string>)
    ensures var r := LoanExport(b, start, expiry, returned);
      && |r.items| == |b.items|
      && (forall i :: 0 <= i < |b.items| ==>
            && r.items[i].barcode == b.items[i].barcode
            && r.items[i].callNumber == b.items[i].callNumber
            && r.items[i].library == b.items[i].sourceName
            && r.items[i].documentType == b.items[i].notes
            && r.items[i].loanDate == Some(start)
            && r.items[i].returnDate == Some(if returned.Some? then returned.value else expiry))
      && WithoutItems(r) == WithoutItems(ExportedRecord(b))
  {
  }

  lemma CopiesRestored(items: seq<MarcItem>, start: string, expiry: string, returned: Option<string>)
    ensures Map(ExportItems(Map(items, ImportItem), Some(start), Some(expiry), returned), ImportItem) == Map(items, ImportItem)
  {
  }

  lemma SameCopiesSameBiblio(r: MarcRecord, rec: MarcRecord)
    requires WithoutItems(r) == WithoutItems(rec) && Map(r.items, ImportItem) == Map(rec.items, ImportItem)
    ensures ImportedBiblio(r) == ImportedBiblio(rec)
  {
    assert r == rec.(items := r.items);
  }

  /** Exporting the loans of an imported record restores its copies as they were read. */
  lemma {:induction false} LoanExportOfImportedRecord(rec: MarcRecord, start: string, expiry: string, returned: Option<string>)
    ensures var r := LoanExport(ImportedBiblio(rec), start, expiry, returned);
      && WithoutItems(r) == WithoutItems(rec)
      && ImportedBiblio(r) == ImportedBiblio(rec)
  {
    var r := LoanExport(ImportedBiblio(rec), start, expiry, returned);
    CopiesRestored(rec.items, start, expiry, returned);
    SameCopiesSameBiblio(r, rec);
  }

  // ── Where imported series come from ────────────────────────────────────────

  /**
   Series never come from both places: as soon as one series link has a title, every imported
   series is such a link; otherwise they are exactly the series statements, in order.
   */
  lemma ImportedSeriesHaveOneSource(r: MarcRecord)
    ensures (exists l :: l in r.links && l.linkType == Some(SeriesLink) && l.title.Some?) ==>
              forall name :: (exists s :: s in ImportSeries(r) && s.name == Some(name))
                <==> exists l :: l in r.links && l.linkType == Some(SeriesLink) && l.title == Some(name)
    ensures (forall l :: l in r.links && l.linkType == Some(SeriesLink) ==> l.title.None?) ==>
              && |ImportSeries(r)| == |r.description.series|
              && forall i :: 0 <= i < |r.description.series| ==>
                   && ImportSeries(r)[i].name == Some(r.description.series[i].title)
                   && ImportSeries(r)[i].issn == r.description.series[i].issn
  {
    FilterMapPreimage(r.links, ImportSeriesLink);
    var linked := FilterMap(r.links, ImportSeriesLink);
    assert forall l :: l in r.links && l.linkType == Some(SeriesLink) && l.title.Some? ==>
        ImportSeriesLink(l).value in linked;
    if linked == [] {
      StatementsInOrder(r.description.series);
    } else {
      assert linked[0] in linked;
    }
  }

  lemma {:induction false} StatementsInOrder(statements: seq<SeriesStatement>)
    ensures var imported := FilterMap(statements, ImportSeriesStatement);
      && |imported| == |statements|
      && forall i :: 0 <= i < |statements| ==>
           imported[i].name == Some(statements[i].title) && imported[i].issn == statements[i].issn
  {
    if statements != [] {
      StatementsInOrder(statements[1..]);
    }
  }

  // ── Volume numbers in free text ────────────────────────────────────────────

  lemma {:induction false} WordLengthOfWord(word: string, rest: string)
    requires forall c :: c in word ==> !IsWhitespace(c)
    requires rest == [] || IsWhitespace(rest[0])
    ensures WordLength(word + rest) == |word|
  {
    if word == [] {
      assert word + rest == rest;
    } else {
      assert (word + rest)[1..] == word[1..] + rest;
      WordLengthOfWord(word[1..], rest);
    }
  }

  lemma {:induction false} WordLengthStops(s: string, tail: string)
    requires WordLength(s) < |s| || (tail != [] && IsWhitespace(tail[0]))
    ensures WordLength(s + tail) == WordLength(s)
  {
    if s == [] {
      assert s + tail == tail;
    } else if !IsWhitespace(s[0]) {
      assert (s + tail)[1..] == s[1..] + tail;
      WordLengthStops(s[1..], tail);
    }
  }

  /** A separate last word is the last word of the text. */
  lemma {:induction false} SplitLastWord(s: string, word: string)
    requires word != [] && forall c :: c in word ==> !IsWhitespace(c)
    ensures SplitWhitespace(s + " " + word) == SplitWhitespace(s) + [word]
    decreases |s|
  {
    var t := s + " " + word;
    if s == [] {
      assert t == " " + word && t[1..] == word;
      WordLengthOfWord(word, []);
      assert word + [] == word && word[|word|..] == [];
    } else if IsWhitespace(s[0]) {
      assert t[1..] == s[1..] + " " + word;
      SplitLastWord(s[1..], word);
    } else {
      var n := WordLength(s);
      assert t == s + (" " + word);
      WordLengthStops(s, " " + word);
      assert t[..n] == s[..n] && t[n..] == s[n..] + " " + word;
      SplitLastWord(s[n..], word);
    }
  }

  lemma {:induction false} NoNumberedWord(words: seq<string>)
    requires forall w, c :: w in words && c in w ==> !IsDigit(c)
    ensures FilterMap(words, WordNumber) == []
  {
    if words != [] {
      assert words[0] in words;
      FilterMembers(words[0], IsDigit);
      NoNumberedWord(words[1..]);
    }
  }

  lemma {:induction false} FilterAll(s: string)
    requires AllDigits(s)
    ensures Filter(s, IsDigit) == s
  {
    if s != [] {
      FilterAll(s[1..]);
    }
  }

  /** The number of a word is that of its digits: a sign is lost. */
  lemma SignIsNoDigit(digits: string)
    requires AllDigits(digits)
    ensures WordNumber("-" + digits) == WordNumber(digits) == ParseI16(digits)
  {
    var word := "-" + digits;
    FilterAll(digits);
    assert word[1..] == digits && !IsDigit(word[0]);
    assert Filter(word, IsDigit) == [] + Filter(digits, IsDigit) == digits;
  }

  lemma NumberOfPrinted(v: Volume)
    ensures WordNumber(IntToString(v)) == if v == I16_MIN then None else Some(if v < 0 then -v else v)
  {
    var n: nat := if v < 0 then -(v as int) else v;
    var digits := NatToString(n);
    SignIsNoDigit(digits);
    PrintedNat(n);
    assert IntToString(v) == if v < 0 then "-" + digits else digits;
  }

  /**
   "vol. 5", "tome 12", "no. 3": a label without digits followed by a number gives the number
   without its sign, and nothing for the one number whose digits alone do not fit 16 bits.
   */
  lemma LabelledVolume(prefix: string, v: Volume)
    requires prefix != [] && TrimmedBy(prefix, IsWhitespace)
    requires forall c :: c in prefix ==> !IsDigit(c)
    ensures ExtractVolumeNumber(prefix + " " + PrintVolume(v))
         == if v == I16_MIN then None else Some(if v < 0 then -v else v)
    ensures ExtractVolumeNumber(prefix + " " + PrintVolume(v)) == Some(v) <==> v >= 0
  {
    var word := IntToString(v);
    var s := prefix + " " + word;
    assert s[0] == prefix[0] && s[|s| - 1] == word[|word| - 1] && word[|word| - 1] in word;
    TrimByTrims(s, IsWhitespace);
    assert s[|prefix|] == ' ' && ' ' in s && ' ' in s[1..] by {
      assert s[1..][|prefix| - 1] == ' ';
    }
    assert ParseI16(s) == None;
    SplitLastWord(prefix, word);
    SplitWhitespaceMembers(prefix);
    NoNumberedWord(SplitWhitespace(prefix));
    FilterMapConcat(SplitWhitespace(prefix), [word], WordNumber);
    NumberOfPrinted(v);
    assert [word][1..] == [];
    assert FilterMap([word], WordNumber) == OptionToSeq(WordNumber(word));
  }
}
