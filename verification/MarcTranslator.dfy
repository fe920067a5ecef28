/**
 The MARC translator: reading a MARC record into a biblio, building a MARC record from a
 biblio, and exporting loans. The two conversions are written as the loops the server runs;
 each is proved to compute the corresponding specification function.
 */
module MarcTranslator {
  import opened Options
  import opened Sequences
  import opened Text
  import opened Decimal
  import opened MarcModel

  // ── Code tables ────────────────────────────────────────────────────────────

  function MediaTypeOf(rt: RecordType): MediaType {
    match rt
    case LanguageMaterial => PrintedText
    case NotatedMusic => AudioMusic
    case PrintedCartographic => CdRom
    case ManuscriptText => Multimedia
    case ProjectedOrVideo => Video
    case NonMusicalSound => Audio
    case MusicalSound => AudioMusic
    case GraphicTwoDimensional => Images
    case ElectronicResource => Multimedia
    case MixedMaterials => MediaType.Unknown
    case OtherRecordType(_) => MediaType.Unknown
  }

  function RecordTypeOf(mt: MediaType): RecordType {
    match mt
    case PrintedText | Comics | Unknown | All => LanguageMaterial
    case Periodic => LanguageMaterial
    case Video | VideoTape | VideoDvd => ProjectedOrVideo
    case Audio | AudioNonMusic | AudioNonMusicTape | AudioNonMusicCd => NonMusicalSound
    case AudioMusic | AudioMusicTape | AudioMusicCd => NotatedMusic
    case Multimedia | CdRom => ElectronicResource
    case Images => GraphicTwoDimensional
  }

  function FunctionOf(r: Relator): Function {
    match r
    case RelAuthor => Author
    case RelIllustrator => Illustrator
    case RelTranslator => Translator
    case RelEditor => ScientificAdvisor
    case RelPrefaceWriter => PrefaceWriter
    case RelPhotographer => Photographer
    case RelPublisher => PublishingDirector
    case RelComposer => Composer
    case RelOther(_) => Author
  }

  function RelatorOf(f: Function): Relator {
    match f
    case Author => RelAuthor
    case Illustrator => RelIllustrator
    case Translator => RelTranslator
    case ScientificAdvisor => RelEditor
    case PrefaceWriter => RelPrefaceWriter
    case Photographer => RelPhotographer
    case PublishingDirector => RelPublisher
    case Composer => RelComposer
  }

  function AudienceOf(t: TargetAudience): AudienceType {
    match t
    case TgtJuvenile => Juvenile
    case TgtPreschool => Preschool
    case TgtPrimary => Primary
    case TgtChildren => Children
    case TgtYoungAdult => YoungAdult
    case TgtAdultSerious => AdultSerious
    case TgtAdult => Adult
    case TgtGeneral => General
    case TgtSpecialized => Specialized
    case TgtUnknown => UnknownAudience
    case TgtOther(s) => OtherAudience(s)
  }

  function TargetAudienceOf(a: AudienceType): TargetAudience {
    match a
    case Juvenile => TgtJuvenile
    case Preschool => TgtPreschool
    case Primary => TgtPrimary
    case Children => TgtChildren
    case YoungAdult => TgtYoungAdult
    case AdultSerious => TgtAdultSerious
    case Adult => TgtAdult
    case General => TgtGeneral
    case Specialized => TgtSpecialized
    case UnknownAudience => TgtUnknown
    case OtherAudience(s) => TgtOther(s)
  }

  function LanguageOf(l: MarcLanguage): Language {
    match l
    case MarcFrench => French
    case MarcEnglish => English
    case MarcGerman => German
    case MarcSpanish => Spanish
    case MarcItalian => Italian
    case MarcPortuguese => Portuguese
    case MarcJapanese => Japanese
    case MarcChinese => Chinese
    case MarcRussian => Russian
    case MarcArabic => Arabic
    case MarcDutch => Dutch
    case MarcSwedish => Swedish
    case MarcNorwegian => Norwegian
    case MarcDanish => Danish
    case MarcFinnish => Finnish
    case MarcPolish => Polish
    case MarcCzech => Czech
    case MarcHungarian => Hungarian
    case MarcRomanian => Romanian
    case MarcTurkish => Turkish
    case MarcKorean => Korean
    case MarcLatin => Latin
    case MarcGreek => Greek
    case MarcCroatian => Croatian
    case MarcHindi => Hindi
    case MarcHebrew => Hebrew
    case MarcPersian => Persian
    case MarcCatalan => Catalan
    case MarcThai => Thai
    case MarcVietnamese => Vietnamese
    case MarcIndonesian => Indonesian
    case MarcMalay => Malay
    case MarcOther(_) => UnknownLanguage
  }

  function MarcLanguageOf(l: Language): MarcLanguage {
    match l
    case French => MarcFrench
    case English => MarcEnglish
    case German => MarcGerman
    case Spanish => MarcSpanish
    case Italian => MarcItalian
    case Portuguese => MarcPortuguese
    case Japanese => MarcJapanese
    case Chinese => MarcChinese
    case Russian => MarcRussian
    case Arabic => MarcArabic
    case Dutch => MarcDutch
    case Swedish => MarcSwedish
    case Norwegian => MarcNorwegian
    case Danish => MarcDanish
    case Finnish => MarcFinnish
    case Polish => MarcPolish
    case Czech => MarcCzech
    case Hungarian => MarcHungarian
    case Romanian => MarcRomanian
    case Turkish => MarcTurkish
    case Korean => MarcKorean
    case Latin => MarcLatin
    case Greek => MarcGreek
    case Croatian => MarcCroatian
    case Hindi => MarcHindi
    case Hebrew => MarcHebrew
    case Persian => MarcPersian
    case Catalan => MarcCatalan
    case Thai => MarcThai
    case Vietnamese => MarcVietnamese
    case Indonesian => MarcIndonesian
    case Malay => MarcMalay
    case UnknownLanguage => MarcOther("")
  }

  // ── Volume numbers ─────────────────────────────────────────────────────────

  /** Length of the longest prefix without whitespace. */
  function WordLength(s: string): (n: nat)
    ensures n <= |s|
    ensures s != [] && !IsWhitespace(s[0]) ==> n > 0
  {
    if s == [] || IsWhitespace(s[0]) then 0 else 1 + WordLength(s[1..])
  }

  /** `str::split_whitespace`. */
  function SplitWhitespace(s: string): seq<string>
    decreases |s|
  {
    if s == [] then []
    else if IsWhitespace(s[0]) then SplitWhitespace(s[1..])
    else
      var n := WordLength(s);
      [s[..n]] + SplitWhitespace(s[n..])
  }

  /** The digits of one word, read as a 16-bit number. */
  function WordNumber(word: string): Option<int> {
    ParseI16(Filter(word, IsDigit))
  }

  /** The first word whose digits make a 16-bit number. */
  function FirstNumber(words: seq<string>): Option<int> {
    First(FilterMap(words, WordNumber))
  }

  /** Word `k` is the first whose digits make a number. */
  ghost predicate FirstNumberAt(words: seq<string>, k: int, n: int) {
    && 0 <= k < |words| && ParseI16(Filter(words[k], IsDigit)) == Some(n)
    && forall j :: 0 <= j < k ==> ParseI16(Filter(words[j], IsDigit)).None?
  }

  lemma {:induction false} FirstNumberIsFirst(words: seq<string>)
    ensures match FirstNumber(words)
            case Some(n) => exists k :: FirstNumberAt(words, k, n)
            case None => forall k :: 0 <= k < |words| ==> ParseI16(Filter(words[k], IsDigit)).None?
  {
    if words != [] {
      FirstNumberIsFirst(words[1..]);
      if WordNumber(words[0]).Some? {
        assert FirstNumberAt(words, 0, WordNumber(words[0]).value);
      } else if FirstNumber(words).Some? {
        var n := FirstNumber(words).value;
        var k :| FirstNumberAt(words[1..], k, n);
        assert FirstNumberAt(words, k + 1, n);
      }
    }
  }

  /** Reads "5", "vol. 5", "tome 12": the whole text if it is a number, else the first numbered word. */
  function ExtractVolumeNumber(s: string): (v: Option<Volume>)
    ensures v.Some? ==> exists c :: c in s && IsDigit(c)
    ensures match ParseI16(Trim(s))
            case Some(n) => v.Some? && v.value == n
            case None =>
              var words := SplitWhitespace(Trim(s));
              if v.Some? then exists k :: FirstNumberAt(words, k, v.value)
              else forall k :: 0 <= k < |words| ==> ParseI16(Filter(words[k], IsDigit)).None?
  {
    var t := Trim(s);
    TrimByTrims(s, IsWhitespace);
    FirstNumberIsFirst(SplitWhitespace(t));
    match ParseI16(t)
    case Some(n) => ParseI16Bounds(t); Some(n)
    case None =>
      match FirstNumber(SplitWhitespace(t))
      case Some(n) => FirstNumberBounds(SplitWhitespace(t)); SplitWhitespaceMembers(t); Some(n)
      case None => None
  }

  lemma ParseI16Bounds(s: string)
    requires ParseI16(s).Some?
    ensures I16_MIN <= ParseI16(s).value <= I16_MAX
    ensures exists c :: c in s && IsDigit(c)
  {
    assert IsDigit(s[|s| - 1]);
  }

  lemma {:induction false} FirstNumberBounds(words: seq<string>)
    requires FirstNumber(words).Some?
    ensures I16_MIN <= FirstNumber(words).value <= I16_MAX
    ensures exists w, c :: w in words && c in w && IsDigit(c)
  {
    if WordNumber(words[0]).Some? {
      ParseI16Bounds(Filter(words[0], IsDigit));
      FilterMembers(words[0], IsDigit);
      var c :| c in Filter(words[0], IsDigit) && IsDigit(c);
      assert words[0] in words && c in words[0];
    } else {
      FirstNumberBounds(words[1..]);
    }
  }

  lemma {:induction false} SplitWhitespaceMembers(s: string)
    ensures forall w, c :: w in SplitWhitespace(s) && c in w ==> c in s
    decreases |s|
  {
    if s != [] && IsWhitespace(s[0]) {
      SplitWhitespaceMembers(s[1..]);
    } else if s != [] {
      SplitWhitespaceMembers(s[WordLength(s)..]);
    }
  }

  // ── Record accessors ───────────────────────────────────────────────────────

  /** Personal and corporate names: the main entry, then the added entries. */
  function Agents(r: Responsibility): seq<Agent> {
    OptionToSeq(r.mainEntry) + r.addedEntries
  }

  function NoteText(notes: seq<Note>, kind: NoteType): Option<string> {
    if notes == [] then None
    else if notes[0].noteType == Some(kind) then Some(notes[0].text)
    else NoteText(notes[1..], kind)
  }

  function FirstDewey(cs: seq<Classification>): Option<string> {
    if cs == [] then None
    else if cs[0].scheme == Dewey then Some(cs[0].number)
    else FirstDewey(cs[1..])
  }

  function NonEmpty(s: string): Option<string> {
    if s == "" then None else Some(s)
  }

  function NonEmptyTrimmed(s: string): Option<string> {
    NonEmpty(Trim(s))
  }

  function FirstSetLevel(links: seq<LinkedRecord>): Option<LinkedRecord> {
    if links == [] then None
    else if links[0].linkType == Some(SetLevel) then Some(links[0])
    else FirstSetLevel(links[1..])
  }

  // ── Importing ──────────────────────────────────────────────────────────────

  function ImportIsbn(raw: string): Option<Isbn> {
    var isbn := NewIsbn(raw);
    if isbn == [] then None else Some(isbn)
  }

  /** Only personal names become authors. */
  function ImportAuthor(a: Agent): Option<Contributor> {
    match a
    case Person(name, forename, _, _, _, _, relator) =>
      Some(Contributor(0, None, Some(name), forename, None, None, OptionMap(relator, FunctionOf)))
    case OtherAgent(_) => None
  }

  function ImportEdition(p: Publication): Edition {
    Edition(None, p.publisher, p.place, p.date, None, None)
  }

  function ImportSeriesLink(l: LinkedRecord): Option<Serie> {
    if l.linkType == Some(SeriesLink) && l.title.Some? then
      Some(Serie(None, None, l.title, l.issn, None, None, AndThen(l.volume, ExtractVolumeNumber)))
    else None
  }

  function ImportSeriesStatement(s: SeriesStatement): Option<Serie> {
    Some(Serie(None, None, Some(s.title), s.issn, None, None, AndThen(s.volume, ExtractVolumeNumber)))
  }

  /** Linked series, or the series statements when no link names a series. */
  function ImportSeries(r: MarcRecord): seq<Serie> {
    var linked := FilterMap(r.links, ImportSeriesLink);
    if linked == [] then FilterMap(r.description.series, ImportSeriesStatement) else linked
  }

  function ImportCollectionLink(l: LinkedRecord): Option<Collection> {
    if l.title.None? then None
    else Some(Collection(None, None, l.title, None, None, l.issn, None, None,
                         AndThen(l.volume, ExtractVolumeNumber)))
  }

  function ImportCollections(r: MarcRecord): seq<Collection> {
    OptionToSeq(AndThen(FirstSetLevel(r.links), ImportCollectionLink))
  }

  function ImportItem(m: MarcItem): Item {
    var notes :=
      match (m.section, m.documentType)
      case (Some(sec), Some(doc)) => Some(sec + " \U{2014} " + doc)
      case (Some(sec), None) => Some(sec)
      case (None, Some(doc)) => Some(doc)
      case (None, None) => None;
    Item(None, None, None, m.barcode, m.callNumber, None, None, true, None, notes, None,
         None, None, None, m.library, false, None)
  }

  function SerieVolume(s: Serie): Option<Volume> {
    s.volumeNumber
  }

  function CollectionVolume(c: Collection): Option<Volume> {
    c.volumeNumber
  }

  function WithoutItems(r: MarcRecord): MarcRecord {
    r.(items := [])
  }

  /** The biblio that a MARC record stands for; the record itself is attached without its items. */
  function ImportedBiblio(r: MarcRecord): Biblio {
    var series := ImportSeries(r);
    var collections := ImportCollections(r);
    var physical := r.description.physicalDescription;
    Biblio(
      None, MediaTypeOf(r.leader.recordType),
      AndThen(First(r.isbns), (i: MarcIsbn) => ImportIsbn(i.value)),
      OptionMap(r.description.title, (t: Title) => t.main),
      OptionMap(First(r.indexing.subjects), (s: Subject) => s.value),
      AndThen(FirstDewey(r.indexing.classifications), NonEmptyTrimmed),
      OptionMap(r.coded.targetAudience, AudienceOf),
      OptionMap(First(r.coded.languages), LanguageOf),
      OptionMap(First(r.coded.originalLanguages), LanguageOf),
      AndThen(First(r.description.publication), (p: Publication) => p.date),
      AndThen(physical, (p: PhysicalDescription) => p.extent),
      AndThen(physical, (p: PhysicalDescription) => p.dimensions),
      NoteText(r.notes, Contents),
      AndThen(physical, (p: PhysicalDescription) => p.accompanyingMaterial),
      NoteText(r.notes, Summary),
      NoteText(r.notes, GeneralNote),
      if r.indexing.uncontrolledTerms == [] then None else Some(r.indexing.uncontrolledTerms),
      Some(r.valid),
      [], Map(series, SerieVolume), None, [], Map(collections, CollectionVolume), None, None, None,
      FilterMap(Agents(r.responsibility), ImportAuthor),
      series, collections,
      OptionMap(First(r.description.publication), ImportEdition),
      Map(r.items, ImportItem),
      Some(WithoutItems(r)))
  }

  /** The first series loop: the titled links to a series. */
  method ImportLinksLoop(links: seq<LinkedRecord>) returns (series: seq<Serie>)
    ensures series == FilterMap(links, ImportSeriesLink)
  {
    series := [];
    for i := 0 to |links|
      invariant series == FilterMap(links[..i], ImportSeriesLink)
    {
      var link := links[i];
      FilterMapSnoc(links[..i], link, ImportSeriesLink);
      assert links[..i + 1] == links[..i] + [link];
      if link.linkType == Some(SeriesLink) {
        match link.title
        case None =>
        case Some(title) =>
          series := series + [Serie(None, None, Some(title), link.issn, None, None,
                                    AndThen(link.volume, ExtractVolumeNumber))];
      }
    }
    assert links[..|links|] == links;
  }

  /** The second series loop: the series statements. */
  method ImportStatementsLoop(statements: seq<SeriesStatement>) returns (series: seq<Serie>)
    ensures series == FilterMap(statements, ImportSeriesStatement)
  {
    series := [];
    for i := 0 to |statements|
      invariant series == FilterMap(statements[..i], ImportSeriesStatement)
    {
      var entry := statements[i];
      FilterMapSnoc(statements[..i], entry, ImportSeriesStatement);
      assert statements[..i + 1] == statements[..i] + [entry];
      series := series + [Serie(None, None, Some(entry.title), entry.issn, None, None,
                                AndThen(entry.volume, ExtractVolumeNumber))];
    }
    assert statements[..|statements|] == statements;
  }

  /** Reads a MARC record into a biblio. */
  method ImportRecord(record: MarcRecord) returns (biblio: Biblio)
    ensures biblio == ImportedBiblio(record)
  {
    var isbn := AndThen(First(record.isbns), (i: MarcIsbn) => ImportIsbn(i.value));
    var authors := FilterMap(Agents(record.responsibility), ImportAuthor);

    var seriesList := ImportLinksLoop(record.links);
    if seriesList == [] {
      seriesList := ImportStatementsLoop(record.description.series);
    }

    var collection: Option<Collection> := None;
    match FirstSetLevel(record.links) {
      case None =>
      case Some(link) =>
        match link.title {
          case None =>
          case Some(title) =>
            collection := Some(Collection(None, None, Some(title), None, None, link.issn, None, None,
                                          AndThen(link.volume, ExtractVolumeNumber)));
        }
    }

    // The local items become copies; the attached record no longer carries them.
    var items := Map(record.items, ImportItem);
    var attached := record.(items := []);
    var collections := OptionToSeq(collection);
    var physical := record.description.physicalDescription;

    biblio := Biblio(
      None, MediaTypeOf(record.leader.recordType), isbn,
      OptionMap(record.description.title, (t: Title) => t.main),
      OptionMap(First(record.indexing.subjects), (s: Subject) => s.value),
      AndThen(FirstDewey(record.indexing.classifications), NonEmptyTrimmed),
      OptionMap(record.coded.targetAudience, AudienceOf),
      OptionMap(First(record.coded.languages), LanguageOf),
      OptionMap(First(record.coded.originalLanguages), LanguageOf),
      AndThen(First(record.description.publication), (p: Publication) => p.date),
      AndThen(physical, (p: PhysicalDescription) => p.extent),
      AndThen(physical, (p: PhysicalDescription) => p.dimensions),
      NoteText(record.notes, Contents),
      AndThen(physical, (p: PhysicalDescription) => p.accompanyingMaterial),
      NoteText(record.notes, Summary),
      NoteText(record.notes, GeneralNote),
      if record.indexing.uncontrolledTerms == [] then None else Some(record.indexing.uncontrolledTerms),
      Some(record.valid),
      [], Map(seriesList, SerieVolume), None, [], Map(collections, CollectionVolume), None, None, None,
      authors, seriesList, collections,
      OptionMap(First(record.description.publication), ImportEdition),
      items, Some(attached));
  }

  // ── Exporting ──────────────────────────────────────────────────────────────

  function NonBlank(o: Option<string>): Option<string> {
    AndThen(o, NonEmptyTrimmed)
  }

  /** A personal heading; a lone first name takes the place of the surname. */
  function ExportAuthor(a: Contributor): Option<Agent> {
    var last := NonBlank(a.lastname);
    var first := NonBlank(a.firstname);
    var relator := OptionMap(a.function_, RelatorOf);
    match (last, first)
    case (Some(l), _) => Some(Person(l, first, None, None, None, None, relator))
    case (None, Some(f)) => Some(Person(f, None, None, None, None, None, relator))
    case (None, None) => None
  }

  function ExportIsbn(i: Isbn): Option<MarcIsbn> {
    OptionMap(NonEmptyTrimmed(i), (s: string) => MarcIsbn(s, None))
  }

  function ExportSerie(s: Serie): Option<SeriesStatement> {
    if s.name.None? || s.name.value == "" then None
    else Some(SeriesStatement(s.name.value, OptionMap(s.volumeNumber, PrintVolume), s.issn))
  }

  function PrintVolume(v: Volume): string {
    IntToString(v)
  }

  /** Collections without a title, an id and a key are not exported. */
  predicate ExportsCollection(c: Collection) {
    || (c.name.Some? && c.name.value != "")
    || c.id.Some?
    || (c.key.Some? && c.key.value != "")
  }

  function CollectionIdentifier(c: Collection): string {
    match c.id
    case Some(id) => IntToString(id)
    case None =>
      match c.key
      case Some(key) => key
      case None =>
        match c.name
        case Some(name) => name
        case None => "collection"
  }

  function ExportCollection(c: Collection): Option<LinkedRecord> {
    if !ExportsCollection(c) then None
    else Some(LinkedRecord(Some(SetLevel), CollectionIdentifier(c), c.name, None, None, c.issn,
                           OptionMap(c.volumeNumber, PrintVolume), None))
  }

  /** One publication statement, from the edition if there is one, else from the date alone. */
  function ExportPublication(b: Biblio): seq<Publication> {
    match b.edition
    case Some(e) => [Publication(e.placeOfPublication, e.publisherName, e.date, None, None, None, None)]
    case None =>
      if b.publicationDate.Some? then [Publication(None, None, b.publicationDate, None, None, None, None)] else []
  }

  function ExportPhysical(b: Biblio): Option<PhysicalDescription> {
    if b.pageExtent.Some? || b.format.Some? || b.accompanyingMaterial.Some? then
      Some(PhysicalDescription(b.pageExtent, None, b.format, b.accompanyingMaterial))
    else None
  }

  function ExportNote(kind: NoteType, text: Option<string>): seq<Note> {
    match text
    case None => []
    case Some(t) => [Note(Some(kind), t)]
  }

  function ExportKeywords(keywords: Option<seq<string>>): seq<string> {
    match keywords
    case None => []
    case Some(ks) => FilterMap(ks, NonEmpty)
  }

  function ExportDewey(dewey: Option<string>): seq<Classification> {
    OptionToSeq(OptionMap(NonBlank(dewey), (n: string) => Classification(Dewey, n)))
  }

  function ExportItem(i: Item, loanDate: Option<string>, returnDate: Option<string>): MarcItem {
    MarcItem(i.sourceName, None, i.barcode, i.callNumber, loanDate, returnDate, i.notes)
  }

  /** `biblio_items_to_marc_items`: one local item per copy, with the loan's dates. */
  function ExportItems(items: seq<Item>, loanStart: Option<string>, loanExpiry: Option<string>,
                       returnedAt: Option<string>): seq<MarcItem> {
    var returnDate := if returnedAt.Some? then returnedAt else loanExpiry;
    Map(items, (i: Item) => ExportItem(i, loanStart, returnDate))
  }

  function ExportResponsibility(authors: seq<Contributor>): Responsibility {
    var agents := FilterMap(authors, ExportAuthor);
    if agents == [] then Responsibility(None, []) else Responsibility(Some(agents[0]), agents[1..])
  }

  /** The record built from the relations of a biblio that has no stored record. */
  function BuiltRecord(b: Biblio): MarcRecord {
    MarcRecord(
      Leader(New, RecordTypeOf(b.mediaType), if b.mediaType == Periodic then Serial else Monograph),
      OptionToSeq(AndThen(b.isbn, ExportIsbn)),
      ExportResponsibility(b.authors),
      Description(
        OptionMap(b.title, (t: string) => Title(t, None, [], None, None, None, None)),
        FilterMap(b.series, ExportSerie), ExportPublication(b), ExportPhysical(b)),
      FilterMap(b.collections, ExportCollection),
      ExportNote(GeneralNote, b.notes) + ExportNote(Contents, b.tableOfContents)
        + ExportNote(Summary, b.abstract_),
      Indexing(
        OptionToSeq(OptionMap(b.subject, (s: string) => Subject(Topical, s))),
        ExportKeywords(b.keywords), ExportDewey(b.dewey)),
      Coded(
        OptionToSeq(OptionMap(b.lang, MarcLanguageOf)),
        OptionToSeq(OptionMap(b.langOrig, MarcLanguageOf)),
        OptionMap(b.audienceType, TargetAudienceOf)),
      ExportItems(b.items, None, None, None),
      b.isValid.None? || b.isValid.value)
  }

  /** A stored record is reused unchanged. */
  function ExportedRecord(b: Biblio): MarcRecord {
    match b.marcRecord
    case Some(r) => r
    case None => BuiltRecord(b)
  }

  const EMPTY_RECORD := MarcRecord(
    Leader(OtherStatus(' '), LanguageMaterial, Monograph), [], Responsibility(None, []),
    Description(None, [], [], None), [], [], Indexing([], [], []), Coded([], [], None), [], true)

  /** The series loop: unnamed and empty-named series are passed over. */
  method ExportSeriesLoop(series: seq<Serie>) returns (statements: seq<SeriesStatement>)
    ensures statements == FilterMap(series, ExportSerie)
  {
    statements := [];
    for i := 0 to |series|
      invariant statements == FilterMap(series[..i], ExportSerie)
    {
      var s := series[i];
      FilterMapSnoc(series[..i], s, ExportSerie);
      assert series[..i + 1] == series[..i] + [s];
      if s.name.Some? && s.name.value != "" {
        statements := statements
          + [SeriesStatement(s.name.value, OptionMap(s.volumeNumber, PrintVolume), s.issn)];
      }
    }
    assert series[..|series|] == series;
  }

  /** The collections loop. */
  method ExportCollectionsLoop(collections: seq<Collection>) returns (links: seq<LinkedRecord>)
    ensures links == FilterMap(collections, ExportCollection)
  {
    links := [];
    for i := 0 to |collections|
      invariant links == FilterMap(collections[..i], ExportCollection)
    {
      var c := collections[i];
      FilterMapSnoc(collections[..i], c, ExportCollection);
      assert collections[..i + 1] == collections[..i] + [c];
      var hasTitle := c.name.Some? && c.name.value != "";
      if !hasTitle && c.id.None? && (c.key.None? || c.key.value == "") {
        continue;
      }
      links := links + [LinkedRecord(Some(SetLevel), CollectionIdentifier(c), c.name, None, None, c.issn,
                                     OptionMap(c.volumeNumber, PrintVolume), None)];
    }
    assert collections[..|collections|] == collections;
  }

  /** The keywords loop: empty keywords are dropped. */
  method ExportKeywordsLoop(exported: Option<seq<string>>) returns (terms: seq<string>)
    ensures terms == ExportKeywords(exported)
  {
    terms := [];
    if exported.Some? {
      var keywords := exported.value;
      for i := 0 to |keywords|
        invariant terms == FilterMap(keywords[..i], NonEmpty)
      {
        FilterMapSnoc(keywords[..i], keywords[i], NonEmpty);
        assert keywords[..i + 1] == keywords[..i] + [keywords[i]];
        if keywords[i] != "" {
          terms := terms + [keywords[i]];
        }
      }
      assert keywords[..|keywords|] == keywords;
    }
  }

  /** Builds the MARC record of a biblio. */
  method ExportBiblio(b: Biblio) returns (record: MarcRecord)
    ensures record == ExportedRecord(b)
  {
    if b.marcRecord.Some? {
      return b.marcRecord.value;
    }
    record := EMPTY_RECORD;
    record := record.(leader := Leader(New, RecordTypeOf(b.mediaType),
                                       if b.mediaType == Periodic then Serial else Monograph));
    record := record.(isbns := OptionToSeq(AndThen(b.isbn, ExportIsbn)));

    var agents := FilterMap(b.authors, ExportAuthor);
    if agents != [] {
      record := record.(responsibility := Responsibility(Some(agents[0]), agents[1..]));
    }

    var statements := ExportSeriesLoop(b.series);
    var links := ExportCollectionsLoop(b.collections);
    record := record.(links := links, description := Description(
      OptionMap(b.title, (t: string) => Title(t, None, [], None, None, None, None)),
      statements, ExportPublication(b), ExportPhysical(b)));

    record := record.(notes := ExportNote(GeneralNote, b.notes));
    record := record.(notes := record.notes + ExportNote(Contents, b.tableOfContents));
    record := record.(notes := record.notes + ExportNote(Summary, b.abstract_));

    var terms := ExportKeywordsLoop(b.keywords);
    record := record.(
      indexing := Indexing(OptionToSeq(OptionMap(b.subject, (s: string) => Subject(Topical, s))),
                           terms, ExportDewey(b.dewey)),
      coded := Coded(OptionToSeq(OptionMap(b.lang, MarcLanguageOf)),
                     OptionToSeq(OptionMap(b.langOrig, MarcLanguageOf)),
                     OptionMap(b.audienceType, TargetAudienceOf)),
      valid := b.isValid.None? || b.isValid.value,
      items := ExportItems(b.items, None, None, None));
  }

  /** `marc_record_for_loan_export`: the notice with the borrowed copies as its local items. */
  function LoanExport(b: Biblio, loanStart: string, loanExpiry: string, returnedAt: Option<string>): MarcRecord {
    ExportedRecord(b).(items := ExportItems(b.items, Some(loanStart), Some(loanExpiry), returnedAt))
  }
}
