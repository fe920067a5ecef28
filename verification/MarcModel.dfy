/**
 The value types on both sides of the MARC translation: the catalogue's biblio with its
 relations, and the semantic MARC record.
 */
module MarcModel {
  import opened Options
  import opened Sequences
  import opened Decimal

  type Timestamp = int

  /** A 16-bit volume number. */
  type Volume = n: int | I16_MIN <= n <= I16_MAX witness 0

  // ── Isbn ───────────────────────────────────────────────────────────────────

  predicate IsAsciiUpperAlphanumeric(c: char) {
    '0' <= c <= '9' || 'A' <= c <= 'Z'
  }

  /** A normalised identifier; the constructor below is the only way to build one. */
  type Isbn = s: string | forall c :: c in s ==> IsAsciiUpperAlphanumeric(c)

  predicate IsAsciiAlphanumeric(c: char) {
    IsAsciiUpperAlphanumeric(c) || 'a' <= c <= 'z'
  }

  function ToAsciiUpper(c: char): char {
    if 'a' <= c <= 'z' then c - 'a' + 'A' else c
  }

  /** The characters that count, and their capitals, by code point. */
  lemma AsciiCharacters(c: char)
    ensures IsAsciiAlphanumeric(c) <==>
      0x30 <= c as int <= 0x39 || 0x41 <= c as int <= 0x5A || 0x61 <= c as int <= 0x7A
    ensures ToAsciiUpper(c) as int == if 0x61 <= c as int <= 0x7A then c as int - 0x20 else c as int
  {
  }

  /** What one raw character contributes to a normalised identifier. */
  function IsbnChar(c: char): string {
    if IsAsciiUpperAlphanumeric(c) then [c]
    else if 'a' <= c <= 'z' then [c - 'a' + 'A']
    else []
  }

  /** `Isbn::new`: the ASCII letters and digits of the text, all of them and in order, upper-cased. */
  function NewIsbn(raw: string): (isbn: Isbn)
    ensures (forall c :: c in raw ==> IsAsciiUpperAlphanumeric(c)) ==> isbn == raw
  {
    if raw == [] then [] else
      assert forall c :: c in raw[1..] ==> c in raw;
      assert raw[0] in raw;
      IsbnChar(raw[0]) + NewIsbn(raw[1..])
  }

  /** All ASCII letters and digits are kept, in order, upper-cased, and nothing else. */
  lemma {:induction false} IsbnKeepsLettersAndDigits(raw: string)
    ensures NewIsbn(raw) == Map(Filter(raw, IsAsciiAlphanumeric), ToAsciiUpper)
  {
    if raw != [] {
      IsbnKeepsLettersAndDigits(raw[1..]);
      var rest := Filter(raw[1..], IsAsciiAlphanumeric);
      if IsAsciiAlphanumeric(raw[0]) {
        assert ([raw[0]] + rest)[1..] == rest;
        assert Map([raw[0]] + rest, ToAsciiUpper) == [ToAsciiUpper(raw[0])] + Map(rest, ToAsciiUpper);
      }
    }
  }

  // ── Catalogue side ─────────────────────────────────────────────────────────

  datatype MediaType =
    | All | Unknown | PrintedText | Multimedia | Comics | Periodic
    | Video | VideoTape | VideoDvd
    | Audio | AudioMusic | AudioMusicTape | AudioMusicCd
    | AudioNonMusic | AudioNonMusicTape | AudioNonMusicCd | CdRom | Images

  datatype Function =
    | Author | Illustrator | Translator | ScientificAdvisor
    | PrefaceWriter | Photographer | PublishingDirector | Composer

  datatype AudienceType =
    | Juvenile | Preschool | Primary | Children | YoungAdult | AdultSerious
    | Adult | General | Specialized | UnknownAudience | OtherAudience(code: string)

  datatype Language =
    | UnknownLanguage | French | English | German | Spanish | Italian | Portuguese | Japanese | Chinese | Russian
    | Arabic | Dutch | Swedish | Norwegian | Danish | Finnish | Polish | Czech | Hungarian | Romanian | Turkish
    | Korean | Latin | Greek | Croatian | Hindi | Hebrew | Persian | Catalan | Thai | Vietnamese | Indonesian
    | Malay

  datatype Contributor = Contributor(
    id: int, key: Option<string>, lastname: Option<string>, firstname: Option<string>,
    bio: Option<string>, notes: Option<string>, function_: Option<Function>)

  datatype Serie = Serie(
    id: Option<int>, key: Option<string>, name: Option<string>, issn: Option<string>,
    createdAt: Option<Timestamp>, updatedAt: Option<Timestamp>, volumeNumber: Option<Volume>)

  datatype Collection = Collection(
    id: Option<int>, key: Option<string>, name: Option<string>,
    secondaryTitle: Option<string>, tertiaryTitle: Option<string>, issn: Option<string>,
    createdAt: Option<Timestamp>, updatedAt: Option<Timestamp>, volumeNumber: Option<Volume>)

  datatype Edition = Edition(
    id: Option<int>, publisherName: Option<string>, placeOfPublication: Option<string>,
    date: Option<string>, createdAt: Option<Timestamp>, updatedAt: Option<Timestamp>)

  /** One physical copy. */
  datatype Item = Item(
    id: Option<int>, biblioId: Option<int>, sourceId: Option<int>, barcode: Option<string>,
    callNumber: Option<string>, volumeDesignation: Option<string>, place: Option<int>,
    borrowable: bool, circulationStatus: Option<int>, notes: Option<string>, price: Option<string>,
    createdAt: Option<Timestamp>, updatedAt: Option<Timestamp>, archivedAt: Option<Timestamp>,
    sourceName: Option<string>, borrowed: bool, loanId: Option<int>)

  datatype Biblio = Biblio(
    id: Option<int>, mediaType: MediaType, isbn: Option<Isbn>, title: Option<string>,
    subject: Option<string>, dewey: Option<string>, audienceType: Option<AudienceType>,
    lang: Option<Language>, langOrig: Option<Language>, publicationDate: Option<string>,
    pageExtent: Option<string>, format: Option<string>, tableOfContents: Option<string>,
    accompanyingMaterial: Option<string>, abstract_: Option<string>, notes: Option<string>,
    keywords: Option<seq<string>>, isValid: Option<bool>,
    seriesIds: seq<int>, seriesVolumeNumbers: seq<Option<Volume>>, editionId: Option<int>,
    collectionIds: seq<int>, collectionVolumeNumbers: seq<Option<Volume>>,
    createdAt: Option<Timestamp>, updatedAt: Option<Timestamp>, archivedAt: Option<Timestamp>,
    authors: seq<Contributor>, series: seq<Serie>, collections: seq<Collection>,
    edition: Option<Edition>, items: seq<Item>, marcRecord: Option<MarcRecord>)

  // ── MARC side ──────────────────────────────────────────────────────────────

  datatype RecordStatus = New | OtherStatus(code: char)

  datatype RecordType =
    | LanguageMaterial | NotatedMusic | PrintedCartographic | ManuscriptText | ProjectedOrVideo
    | NonMusicalSound | MusicalSound | GraphicTwoDimensional | ElectronicResource
    | MixedMaterials | OtherRecordType(code: char)

  datatype BibliographicLevel = Monograph | Serial | OtherLevel(code: char)

  datatype Leader = Leader(status: RecordStatus, recordType: RecordType, level: BibliographicLevel)

  datatype MarcIsbn = MarcIsbn(value: string, qualifying: Option<string>)

  datatype Relator =
    | RelAuthor | RelIllustrator | RelTranslator | RelEditor | RelPrefaceWriter
    | RelPhotographer | RelPublisher | RelComposer | RelOther(code: string)

  datatype Agent =
    | Person(name: string, forename: Option<string>, dates: Option<string>, numeration: Option<string>,
             titlesAssociated: Option<string>, fullerForm: Option<string>, relator: Option<Relator>)
    | OtherAgent(heading: string)

  datatype Responsibility = Responsibility(mainEntry: Option<Agent>, addedEntries: seq<Agent>)

  datatype Title = Title(
    main: string, subtitle: Option<string>, parallel: seq<string>, responsibility: Option<string>,
    medium: Option<string>, numberOfPart: Option<string>, nameOfPart: Option<string>)

  datatype SeriesStatement = SeriesStatement(title: string, volume: Option<string>, issn: Option<string>)

  datatype Publication = Publication(
    place: Option<string>, publisher: Option<string>, date: Option<string>, function_: Option<string>,
    manufacturePlace: Option<string>, manufacturer: Option<string>, manufactureDate: Option<string>)

  datatype PhysicalDescription = PhysicalDescription(
    extent: Option<string>, otherPhysicalDetails: Option<string>, dimensions: Option<string>,
    accompanyingMaterial: Option<string>)

  datatype Description = Description(
    title: Option<Title>, series: seq<SeriesStatement>, publication: seq<Publication>,
    physicalDescription: Option<PhysicalDescription>)

  datatype LinkType = SeriesLink | SetLevel | OtherLink(code: string)

  datatype LinkedRecord = LinkedRecord(
    linkType: Option<LinkType>, identifier: string, title: Option<string>, edition: Option<string>,
    qualifier: Option<string>, issn: Option<string>, volume: Option<string>,
    relationshipInfo: Option<string>)

  datatype NoteType = GeneralNote | Contents | Summary | OtherNote(code: string)

  datatype Note = Note(noteType: Option<NoteType>, text: string)

  datatype SubjectType = Topical | OtherSubject(code: string)

  datatype Subject = Subject(headingType: SubjectType, value: string)

  datatype ClassificationScheme = Dewey | OtherScheme(code: string)

  datatype Classification = Classification(scheme: ClassificationScheme, number: string)

  datatype Indexing = Indexing(
    subjects: seq<Subject>, uncontrolledTerms: seq<string>, classifications: seq<Classification>)

  datatype MarcLanguage =
    | MarcFrench | MarcEnglish | MarcGerman | MarcSpanish | MarcItalian | MarcPortuguese | MarcJapanese
    | MarcChinese | MarcRussian | MarcArabic | MarcDutch | MarcSwedish | MarcNorwegian | MarcDanish | MarcFinnish
    | MarcPolish | MarcCzech | MarcHungarian | MarcRomanian | MarcTurkish | MarcKorean | MarcLatin | MarcGreek
    | MarcCroatian | MarcHindi | MarcHebrew | MarcPersian | MarcCatalan | MarcThai | MarcVietnamese
    | MarcIndonesian | MarcMalay | MarcOther(code: string)

  datatype TargetAudience =
    | TgtJuvenile | TgtPreschool | TgtPrimary | TgtChildren | TgtYoungAdult | TgtAdultSerious
    | TgtAdult | TgtGeneral | TgtSpecialized | TgtUnknown | TgtOther(code: string)

  datatype Coded = Coded(
    languages: seq<MarcLanguage>, originalLanguages: seq<MarcLanguage>,
    targetAudience: Option<TargetAudience>)

  /** A local item; the fields that the translation neither reads nor fills are not modelled. */
  datatype MarcItem = MarcItem(
    library: Option<string>, section: Option<string>, barcode: Option<string>,
    callNumber: Option<string>, loanDate: Option<string>, returnDate: Option<string>,
    documentType: Option<string>)

  datatype MarcRecord = MarcRecord(
    leader: Leader, isbns: seq<MarcIsbn>, responsibility: Responsibility, description: Description,
    links: seq<LinkedRecord>, notes: seq<Note>, indexing: Indexing, coded: Coded,
    items: seq<MarcItem>, valid: bool)
}
