# Verified model of the Elidune library server

Elidune is the server of a library: a catalogue of biblios (notices) and their physical copies,
exchanged as MARC records, with loans, fines, e-mail, an audit log and a runtime configuration, and
a script that migrates a legacy database into the new schema. This project models the parts of it
whose correctness is a matter of logic rather than of plumbing, and proves what they promise.

| file | what it covers |
|---|---|
| `MarcModel`, `MarcTranslator`, `MarcReading`, `MarcRoundTrip` | the two conversions between MARC records and biblios, what they do with each part of any record or biblio, and what a round trip keeps |
| `LegacyModel`, `BiblioStage`, `LinkStage`, `CopyRules`, `CopyStage`, `LoanStage`, `CatalogueMigration`, `MigrationReading`, `MigrationResults`, `LoginMigration` | the legacy migration: biblios, links, copies, loans, archives, logins; and where every legacy row is found again |
| `DynamicConfig` | configuration sections held in memory and in the `settings` table |
| `Sql`, `AuditQuery`, `DynamicUpdate` | generated SQL with numbered placeholders against its direct meaning; paging |
| `EmailTemplates`, `PlaceholderSafety`, `EmailTemplateStore`, `InventoryEmail`, `HtmlEscape` | placeholder substitution, the template cascade, loan-closure mail |
| `CatalogKeys`, `LikeSearch`, `CsvExport` | key normalisation, LIKE search, CSV export |
| `FinesLedger` | fines, payments, waivers and the unpaid total |
| `Options`, `Text`, `Sequences`, `Decimal` | result types and the string and list operations of the Rust and Python libraries that the code relies on |

Code that changes state step by step is modelled as classes and loops (`Target`, `ConfigServer`,
`FinesTable`, the two `Table` classes, `TemplateStore`, and the methods that build lists). Each
method is proved against a specification function or predicate, and the properties below are proved
of those.

## Results

- **MARC.** For every record and every biblio, produced by an export or not, each field of the
  conversion's result is stated on its own, by tables and reading rules that do not mention the
  conversion functions. One export and re-import of a biblio without stored record gives its normal form,
  defined field by field. A second round trip changes nothing if and only if the first exported
  collection does not have an empty name; two round trips always settle.
- **Migration.** On an empty target a run completes if and only if every row that is not skipped
  fits its columns, names existing references and, for an active loan, has a date. However it ends,
  no row refers to anything that is not there, barcodes are unique, and every table holds what that
  ending calls for, down to the whole pages committed before the first refused row. Link rows are
  kept exactly when they are accepted together with all later rows of their batch. After a completed run every
  legacy row that is not skipped is found in its table, column by column, as the legacy row alone
  calls for. The user logins
  can be inserted if and only if they are short enough and no plain login equals a suffixed one.
- **Configuration.** Over every run of updates, resets and restarts in which the table can be
  written and read, memory is what a reload would give. Over every run, whatever fails in it, memory
  and table agree on a section if and only if the last operation that concerned it reached the
  table, or left in memory what file and table give anyway.
- **Queries.** For every choice of filters the generated clause, under the positions at which the
  values are bound, selects exactly the rows that meet them; generated updates are the direct merge.
  A page of the audit log is the intended one if and only if its offset fits 64 bits or wraps to one
  behind the last entry.
- **Texts.** Substituting variables one after the other fills every template simultaneously, after
  every pass, if and only if no earlier value, and no literal with an opening brace, contains a
  variable's placeholder, ends inside it, or begins it together with the one next to it (a variable
  that stands for its own placeholder is never a problem). A search is a substring search if and
  only if the text has no backslash; after folding, if and only if nothing in it is or becomes an
  unquoted special character. The CSV export reads back as the values that were written. Normalising a key twice is
  normalising it once if and only if no inner run has three separators.
- **Fines.** Over every run the stored status is the one the amounts call for, and the
  status-filtered sum is what the user owes. A waiver lowers it by the open part of the fine, and a
  payment by what it covers if and only if the fine is not waived, or is covered by then: a smaller
  payment on a waived fine raises it. No other user's sum changes.

## Where code and description differ

The model follows the code in each case.

- `language_chain` is described as requested, French, English; only French and English are ever
  tried (`src/email_templates.rs:48-58`). A table row in the second language is preferred to a file
  in the first.
- Seeding of templates is described as skipped when the table is not empty; the code checks each
  template on its own (`src/email_templates.rs:171-216`).
- The "swap" of barcode and call number moves the barcode into the call number and clears the
  barcode; the old call number is gone (`database/migrate_data.py:982-985`). A copy without barcode
  and with a one-word call number ends with neither.
- Archived borrows whose id is already taken by a returned borrow are counted as migrated but not
  stored (`database/migrate_data.py:1167-1178`).
- An active borrow whose date is 0 stops the migration: the date becomes NULL, which `loans.date`
  does not take (`database/migrate_data.py:1062-1103`). A link row that is refused is passed over,
  but the rollback also undoes the rows of its batch before it (`database/migrate_data.py:842-883`).
- A configuration update or reset changes memory before the table is written
  (`src/api/admin_config.rs:134-142`), and a `settings` table that cannot be read at startup counts
  as empty (`src/dynamic_config.rs:162-165`).
- Search names have `%` and `_` escaped but not the backslash (`src/repository/catalog_entities.rs:97`).
- A payment on a waived fine reopens it (`src/repository/fines.rs:150-160`).
- The audit export is described as unbounded; it stops at 50,000 entries
  (`src/repository/audit_log.rs:271-303`). The CSV export stops at the first 10,000 biblios
  (`src/api/biblios.rs:695-698`).
- The comment on linked series says they are the fallback for the free-text statements; the code
  takes the links first and the statements as the fallback (`src/marc/translator.rs:360-395`).

## Assumptions

- The accessors of the MARC library are not part of this model. They are taken as the obvious
  projections: first identifier, first subject, first publication date, first note of a kind, and
  the main entry followed by the added entries for authors.
- JSON decoding and the section validators, lower-casing, the folding used in searches, which
  characters beyond ASCII are alphanumeric, the answers of the mail services, the template files,
  the author function table, the clock and the ids of new rows are parameters.
- Dates of a loan export are given as already formatted text.
- Tables are maps or sequences over a fixed snapshot. Rows of equal time keep one fixed order under
  ORDER BY, and ids are unique.
- The definition of the `fines` table is not part of this model; its defaults are taken to be a paid
  amount of zero and the status `pending`. Amounts are real numbers.
- The migration starts on an empty target. The ids of the editions, sources, series, collections and
  authors that earlier stages left there, and the cities of the legacy users, are parameters. Other
  integers and the texts of the author function table fit their columns, which are as wide as the
  legacy ones. Column widths count characters, and blanks in excess are cut off.
- Arithmetic on page numbers wraps around at 64 bits, as it does in a release build.

## Model

| member | source | states |
|---|---|---|
| MarcModel.IsbnKeepsLettersAndDigits | src/models/biblio.rs:43-52 | An identifier is all ASCII letters and digits of the text, in order, upper-cased, and nothing else |
| MarcModel.AsciiCharacters | src/models/biblio.rs:43-52 | Which characters of an identifier count, and their capitals, by code point |
| MarcTranslator.ExtractVolumeNumber | src/marc/translator.rs:47-58 | The number is that of the whole trimmed text if it is one, else that of the first word whose digits make one, and always fits 16 bits; nothing is found without a digit |
| MarcTranslator.ImportLinksLoop | src/marc/translator.rs:363-380 | The first series loop collects the titled series links in order |
| MarcTranslator.ImportStatementsLoop | src/marc/translator.rs:382-395 | The second series loop takes every series statement in order |
| MarcTranslator.ImportRecord | src/marc/translator.rs:283-465 | Reading a record computes the biblio that the record stands for, the record attached without its local items; the rows below say what that is for each field |
| MarcReading.MediaTypesAgree | src/marc/translator.rs:61-157 | Both media type conversions are exactly the two listed relations between record types and media types |
| MarcReading.RelatorsAgree | src/marc/translator.rs:19-93 | Both relator conversions are exactly the listed relation; an unknown relator is read as author and never written |
| MarcReading.AudiencesAgree | src/marc/translator.rs:96-259 | Both audience conversions are exactly the listed relation |
| MarcReading.LanguageReadAgrees | src/marc/translator.rs:159-197 | A language is read as the one of the same name, any other as unknown |
| MarcReading.LanguageWrittenAgrees | src/marc/translator.rs:199-240 | A language is written as the one of the same name, the unknown one as an unnamed other one |
| MarcReading.ImportedLeader | src/marc/translator.rs:292-293 | For every record: the media type is the one its record type is read as, and the validity is the record's |
| MarcReading.ImportedAuthors | src/marc/translator.rs:295-312 | The authors are the personal entries, main entry first, in order, with their names and functions |
| MarcReading.ImportedSeries | src/marc/translator.rs:354-395 | The series are the titled series links or, without any, the statements, in order, each with its own title, ISSN and volume |
| MarcReading.ImportedVolumes | src/marc/translator.rs:397-448 | The volume numbers of series and collections are those of the series and collections themselves |
| MarcReading.ImportedCollection | src/marc/translator.rs:397-419 | The collection is the first set-level link, if there is one and it has a title, with its ISSN and volume |
| MarcReading.ImportedCopies | src/marc/translator.rs:479-505 | One copy per local item, in order; its note is section and document type, joined when there are both |
| MarcReading.ImportedIsbn | src/marc/translator.rs:285-287 | Only the first ISBN counts, and nothing is kept if nothing of it remains |
| MarcReading.ImportedDescription | src/marc/translator.rs:289-340 | Title, subject, keywords, publication and physical description, of several the first |
| MarcReading.ImportedNotes | src/marc/translator.rs:342-345 | General note, contents and summary are each the first note of their kind, if there is one |
| MarcReading.ImportedDewey | src/marc/translator.rs:38-45 | The Dewey number is the first one, trimmed, unless nothing is left of it |
| MarcReading.ImportedCodes | src/marc/translator.rs:347-352 | The languages are the first of each list, the audience the record's |
| MarcTranslator.ExportSeriesLoop | src/marc/translator.rs:566-577 | Named series become series statements, in order; unnamed and empty-named ones are left out |
| MarcTranslator.ExportCollectionsLoop | src/marc/translator.rs:580-601 | Collections with a title, an id or a key become set-level links, in order |
| MarcTranslator.ExportKeywordsLoop | src/marc/translator.rs:667-673 | Keywords are kept in order without the empty ones |
| MarcTranslator.ExportBiblio | src/marc/translator.rs:511-705 | Exporting gives the stored record unchanged, else the record built from the relations; the rows below say what that is for each field |
| MarcReading.ExportedLeader | src/marc/translator.rs:520-527 | For every biblio: the level is serial exactly for periodicals, the status new, the record type the one written for the media type, and the record valid unless said otherwise |
| MarcReading.ExportedIsbn | src/marc/translator.rs:529-537 | The trimmed identifier is the only one, unless nothing is left of it |
| MarcReading.ExportedAuthors | src/marc/translator.rs:112-550 | The headings are those of the authors that have a name that is not blank, in order, the first as main entry |
| MarcReading.ExportedSeries | src/marc/translator.rs:565-577 | One statement per series with a non-empty name, in order, with its own ISSN and printed volume |
| MarcReading.ExportedCollections | src/marc/translator.rs:579-601 | One set-level link per collection with a name, an id or a key, in order; its identifier is the printed id, else the key, else the name; title, ISSN and volume are the collection's own |
| MarcReading.ExportedDescription | src/marc/translator.rs:552-636 | Title, publication (the edition before the bare date) and physical description, each there exactly when there is something to write |
| MarcReading.ExportedNotes | src/marc/translator.rs:638-657 | General note, contents and summary in this order, each with its kind and text, as far as there are any |
| MarcReading.ExportedIndexing | src/marc/translator.rs:659-682 | The subject, the keywords without the empty ones, and the trimmed Dewey number |
| MarcReading.ExportedCodes | src/marc/translator.rs:684-694 | The languages and the audience, each as the one it is written as |
| MarcReading.ExportedCopies | src/marc/translator.rs:698-701 | One local item per copy, in order, with its library, barcode, call number and note, and without dates |
| MarcRoundTrip.PrintedVolume | src/marc/translator.rs:48-58 | Every 16-bit volume number, negative ones included, is read back from its printed form |
| MarcRoundTrip.LabelledVolume | src/marc/translator.rs:47-58 | A digit-free label followed by a number reads as that number without its sign, hence as that number exactly when it is not negative; the least 16-bit number gives nothing |
| MarcRoundTrip.MediaTypesCoarsen | src/marc/translator.rs:60-80 | A media type survives export and import as its coarse class |
| MarcRoundTrip.RelatorsRoundTrip | src/marc/translator.rs:82-93 | Every author function survives as its relator |
| MarcRoundTrip.AudiencesRoundTrip | src/marc/translator.rs:95-110 | Every audience survives |
| MarcRoundTrip.LanguagesRoundTrip | src/marc/translator.rs:199-240 | Every language survives, the unknown one included |
| MarcRoundTrip.AuthorsRoundTrip | src/marc/translator.rs:112-137 | Authors come back trimmed, with a lone first name moved to the surname, and nameless ones dropped |
| MarcRoundTrip.CollectionsRoundTrip | src/marc/translator.rs:580-601 | Only the first exported collection comes back, and only if it has a name |
| MarcRoundTrip.RoundTripIsNormalForm | src/marc/translator.rs:283-705 | Exporting a biblio without stored record and importing it gives its normal form, every field accounted for |
| MarcRoundTrip.NormalFormStable | src/marc/translator.rs:283-705 | The normal form is its own normal form if and only if the first exported collection does not have an empty name |
| MarcRoundTrip.SecondRoundTripStable | src/marc/translator.rs:283-705 | A second round trip through the actual conversions changes nothing exactly under that condition |
| MarcRoundTrip.NamedCollectionsSettleAtOnce | src/marc/translator.rs:579-601 | With non-empty collection names one round trip is enough for every biblio |
| MarcRoundTrip.TwoRoundTripsSettle | src/marc/translator.rs:283-705 | Two round trips are enough for every biblio |
| MarcRoundTrip.EmptyCollectionNameIsUnstable | src/marc/translator.rs:580-601 | A concrete biblio that loses a collection only in the second round trip |
| MarcRoundTrip.StoredRecordRoundTrip | src/marc/translator.rs:421-424 | An imported record exports as itself without its local items, and re-importing that loses exactly the copies |
| MarcRoundTrip.ImportedSeriesHaveOneSource | src/marc/translator.rs:360-395 | Series come either all from titled links or all from statements, never from both |
| MarcRoundTrip.LoanExportListsCopies | src/marc/translator.rs:707-768 | A loan export has one local item per copy, in order, with the loan date and the return date or else the due date, and is otherwise the notice |
| MarcRoundTrip.LoanExportOfImportedRecord | src/marc/translator.rs:748-768 | A loan export of an imported record is that record, and re-importing it restores the same copies |
| LegacyModel.SkippedIffNothingToIdentify | database/migrate_data.py:319-340 | A biblio is skipped exactly when the new row would have neither ISBN nor title |
| LegacyModel.AuthorsNumbered | database/migrate_data.py:813-830 | The authors of a biblio are numbered from one without gaps across the three legacy arrays |
| CopyRules.BarcodesDistinct | database/migrate_data.py:974-985 | No two migrated copies end with the same barcode |
| CopyRules.TokenBarcodeEndsOnLowest | database/migrate_data.py:967-985 | A one-word barcode carried by a migrated specimen ends on exactly one copy, the carrier with the lowest id |
| CopyRules.BarcodeLostIff | database/migrate_data.py:974-985 | A carried barcode ends on no copy exactly when it has a space and its first carrier has a one-word call number |
| CopyRules.CallNumberKeptIff | database/migrate_data.py:982-985 | The call number survives exactly when the exchange does not take place, and the exchange always clears the barcode |
| CopyRules.CallNumberLost | database/migrate_data.py:984-985 | A specimen without barcode and with a one-word call number ends with neither |
| LegacyModel.StrippedFitsIff | migrations/001_initial_schema.sql:249-250 | A stripped text fits its column exactly when it is short enough, and is then stored uncut |
| CatalogueMigration.Target.InsertBiblio | migrations/001_initial_schema.sql:246-270 | An insertion succeeds exactly when the texts fit and the id is taken or source and edition exist |
| CatalogueMigration.Target.InsertItem | migrations/001_initial_schema.sql:329-347 | An insertion succeeds exactly when the texts fit and the id is taken, or biblio and source exist and the barcode is free |
| CatalogueMigration.Target.InsertLoan | migrations/001_initial_schema.sql:390-402 | An insertion succeeds exactly when there is a date and the id is taken or the copy exists |
| CatalogueMigration.Target.InsertArchive | migrations/001_initial_schema.sql:412-424 | An insertion succeeds exactly when the city fits and the id is taken or the copy exists |
| CatalogueMigration.Target.MigrateItem | database/migrate_data.py:730-830 | One legacy biblio is skipped, refused exactly when the target's constraints are broken, or inserted with its links queued |
| MigrationReading.IsbnIsRead | database/migrate_data.py:750-754 | The stored ISBN is all digits and X of the identification, in order and upper-cased, and missing when there are none |
| MigrationReading.TitleIsRead | database/migrate_data.py:319-327 | The title is the first of the four that is not blank, stripped |
| MigrationReading.SkippedIsRead | database/migrate_data.py:330-344 | A biblio is skipped exactly when all four titles are blank and the identification has no digit and no X |
| MigrationReading.BiblioIsRead | database/migrate_data.py:743-798 | A kept row's biblio, column by column: ISBN, title, media type from the table or as it is, references only for positive ids, the other texts as they are |
| MigrationReading.BibliosAreRead | database/migrate_data.py:703-834 | So it stands in the table for every kept row before the first refused one |
| MigrationReading.SeriesAreLinked | database/migrate_data.py:807-808 | If all series exist, every kept biblio that names one is linked to it with its own volume |
| MigrationReading.CollectionsAreLinked | database/migrate_data.py:810-811 | Likewise for collections |
| MigrationReading.FunctionCodesAreRead | database/migrate_data.py:822 | The function codes of an author array are the stripped parts between the commas, without the blank ones |
| MigrationReading.AuthorsAreRead | database/migrate_data.py:813-830 | The authors of an array are those with positive ids, in order, numbered behind those of the arrays before it, each with the function whose code has the same index |
| CatalogueMigration.Target.MigrateBiblioPage | database/migrate_data.py:714-832 | A page is committed whole, or rolled back at its first refused row |
| CatalogueMigration.Target.MigrateBiblios | database/migrate_data.py:703-834 | The paging loop stops at the first refused row with the whole pages before it; else migrated and skipped rows add up to the total |
| LinkStage.SurvivesIff | database/migrate_data.py:842-884 | A link row is kept exactly when it is accepted together with all later rows of its batch of 500 |
| LinkStage.AllSurviveIff | database/migrate_data.py:842-884 | No link row is lost exactly when none is refused |
| CatalogueMigration.Target.InsertLinkBatch | database/migrate_data.py:843-852 | One batch: the rows behind the last refused one are added, ON CONFLICT DO NOTHING |
| CatalogueMigration.Target.InsertLinks | database/migrate_data.py:841-867 | The link table holds the surviving rows, each key with the volume of its first row |
| CatalogueMigration.Target.InsertAuthorBatch | database/migrate_data.py:873-883 | One batch of author rows, where a NULL function never conflicts |
| CatalogueMigration.Target.InsertAuthors | database/migrate_data.py:869-884 | The author table holds the surviving rows under its unique constraint |
| LinkStage.LinksAreStored | database/migrate_data.py:807-867 | Since biblio ids are distinct no surviving link is dropped as a duplicate: each has its row, with its own volume |
| LinkStage.NoLinkLostIff | database/migrate_data.py:807-867 | Every migrated biblio has its series (collection) link exactly when all of them name an existing series (collection) |
| LinkStage.AuthorsAreStored | database/migrate_data.py:872-879 | Of the surviving author rows no authorship is lost or invented |
| LinkStage.AuthorsStoredOnce | database/migrate_data.py:875-879 | An authorship with a function is stored only once |
| LinkStage.AuthorsRefer | database/migrate_data.py:872-883 | Every author row names a migrated biblio and an existing author |
| CatalogueMigration.LinksReferToBiblios | database/migrate_data.py:743-748 | No series, collection or author link mentions a skipped biblio |
| CatalogueMigration.Target.MigrateItems | database/migrate_data.py:673-886 | The biblio stage succeeds exactly when no row is refused, leaves what is called for in either case, and hands on the skipped ids |
| CopyStage.ItemWidthsIff | database/migrate_data.py:974-985 | A copy fits its columns exactly when the barcode it keeps is short enough and the call number fits unless it is given up |
| CopyStage.FreshBarcodeIsFree | database/migrate_data.py:974-985 | The unique index never objects: a barcode in use has been seen |
| CopyStage.CopiesRefer | database/migrate_data.py:964-1001 | Every copy's biblio and source exist, and barcodes are unique in the table |
| CatalogueMigration.Target.BuildCopy | database/migrate_data.py:949-987 | The step-by-step clearing and exchange of barcode and call number gives the copy described without running state |
| MigrationReading.KeptIsRead | database/migrate_data.py:974-981 | A specimen keeps its stripped barcode unless an earlier migrated one carries the same text |
| MigrationReading.CopyIsRead | database/migrate_data.py:949-1001 | A copy, column by column: barcode and call number, exchanged exactly when only the call number is one word; borrowable, archive date and the rest from its own specimen |
| MigrationReading.CopiesAreRead | database/migrate_data.py:926-1017 | So it stands in the table for every migrated specimen before the first refused one |
| CatalogueMigration.Target.MigrateSpecimen | database/migrate_data.py:934-1001 | One specimen is skipped, refused exactly when the target's constraints are broken, or becomes its copy |
| CatalogueMigration.Target.MigrateSpecimenPage | database/migrate_data.py:926-1003 | A page is committed whole, or rolled back at its first refused copy |
| CatalogueMigration.Target.MigrateSpecimens | database/migrate_data.py:889-1017 | The paging loop stops at the first refused copy with the whole pages before it; else copies and skipped specimens add up |
| CatalogueMigration.Target.MigrateCopies | database/migrate_data.py:889-1017 | The copy stage succeeds exactly when no copy is refused, and leaves sound references and unique barcodes in either case |
| LoanStage.RejectedBorrowIff | database/migrate_data.py:1059-1103 | A borrow of a migrated copy is refused exactly when it is active with date 0, or returned by a reader whose city is too long |
| CatalogueMigration.Target.MigrateBorrow | database/migrate_data.py:1056-1104 | One borrow becomes its active loan, its archived loan or nothing, or is refused |
| MigrationReading.BorrowIsRead | database/migrate_data.py:1056-1104 | What is stored for a borrow of a migrated copy: a loan with its own dates if it was not returned, else an archived loan with its dates and the reader's city |
| MigrationReading.OnlyMigratedBorrows | database/migrate_data.py:1056-1062 | Nothing is stored for a borrow of anything but a migrated copy |
| CatalogueMigration.Target.MigrateLoans | database/migrate_data.py:1050-1112 | All borrows are stored and counted once, or, if one is refused, nothing is stored |
| CatalogueMigration.Target.MigrateArchive | database/migrate_data.py:1143-1178 | One archived borrow is skipped, refused, or stored unless its id is taken; in the last case it is counted either way |
| MigrationReading.ArchivedIsRead | database/migrate_data.py:1143-1178 | What is stored for an archived borrow of a migrated copy whose id is free: its own copy and dates, and no user |
| CatalogueMigration.Target.MigrateLoansArchives | database/migrate_data.py:1115-1186 | The archive grows by exactly the rows whose id was free, although all referring rows are counted; if one is refused, by nothing |
| LoanStage.ArchiveRowsLostIff | database/migrate_data.py:1167-1178 | Counted archive rows are lost exactly when one has the id of a returned borrow |
| LoanStage.LoansReferToCopies | database/migrate_data.py:1067-1104 | Every loan and every archived returned loan names a migrated copy |
| LoanStage.LoansHaveDates | database/migrate_data.py:1096-1104 | No active loan is stored without a date |
| LoanStage.ArchivesReferToCopies | database/migrate_data.py:1149-1178 | Every archived loan names a migrated copy |
| CatalogueMigration.Target.MigrateLoanTables | database/migrate_data.py:1367-1368 | The two loan stages end as the borrows and archived borrows decide, with every row naming a migrated copy |
| CatalogueMigration.KeptIffExists | database/migrate_data.py:939-947 | After skipping, a copy's biblio is in the target exactly when it is in the legacy catalogue |
| CatalogueMigration.BiblioGuardIff | database/migrate_data.py:743-805 | A biblio is refused exactly when it is not skipped and a text is too long or its source or edition is missing |
| CatalogueMigration.SpecimenGuardIff | database/migrate_data.py:939-1000 | A specimen is refused exactly when it is not skipped and its biblio or source is missing or a kept text is too long |
| CatalogueMigration.CompletesIff | database/migrate_data.py:1349-1368 | A run completes exactly when every row that is not skipped meets these guards and every active loan has a date |
| CatalogueMigration.Target.MigrateCatalogue | database/migrate_data.py:1349-1368 | The legacy rows and existing ids alone decide how the run ends; every table then holds what that ending calls for, and all references are sound |
| MigrationResults.RunMigration | database/migrate_data.py:1349-1368 | A run that completes leaves every legacy biblio, copy, borrow and archived borrow that is not skipped in its table, column by column as the legacy row calls for, and the tables hold nothing else |
| MigrationResults.RunIsRead | database/migrate_data.py:673-1186 | The same of any tables that a completed run may leave |
| MigrationResults.LoansAreRead | database/migrate_data.py:1020-1186 | Every borrow of a migrated copy is a loan or an archived loan, and every archived borrow of one is found unless a returned borrow has its id |
| LoginMigration.LoginIsRead | database/migrate_data.py:512 | The login is the stripped one, or `user_` and the id exactly when nothing is left of it |
| LoginMigration.FinalLoginIsStored | database/migrate_data.py:509-522 | The final login is the login itself, with `_` and the id appended exactly when another row's login is the same but for case |
| LoginMigration.SuffixedLoginsDistinct | database/migrate_data.py:517-522 | Suffixed logins are pairwise distinct, also across groups |
| LoginMigration.UnsuffixedLoginsDistinct | database/migrate_data.py:511-519 | Plain logins are pairwise distinct even ignoring case |
| LoginMigration.LoginsDistinctIff | database/migrate_data.py:509-522 | All logins are distinct exactly when no plain login equals a suffixed one |
| LoginMigration.SuffixedLoginCanCollide | database/migrate_data.py:517-522 | Three users for which two logins collide |
| LoginMigration.SharedIffLargeGroup | database/migrate_data.py:516-522 | A user shares its login up to case exactly when its group has more than one entry |
| LoginMigration.CountLogins | database/migrate_data.py:509-514 | The counting map holds each key's users in their order, and no other key |
| LoginMigration.AssignGroup | database/migrate_data.py:517-522 | One group's users get their login, with the id appended if there are several, and no other user changes |
| LoginMigration.UniqueLogins | database/migrate_data.py:509-522 | In whatever order the groups come, every user ends with the final login |
| LoginMigration.InsertUsers | database/migrate_data.py:527-601 | Insertion under the unique login column succeeds exactly when all logins are short enough and distinct; one refused row, and nothing is stored |
| LoginMigration.MigrateLogins | database/migrate_data.py:509-601 | The stage succeeds exactly when all final logins are short enough and no plain login equals a suffixed one, and then holds every user with the final login |
| DynamicConfig.KeysAreExact | src/dynamic_config.rs:40-59 | Section keys and sections correspond one to one |
| DynamicConfig.LoadWithDbOverrides | src/dynamic_config.rs:157-191 | Loading gives the effective configuration whatever the order of the rows, and reports exactly the rows that took effect |
| DynamicConfig.ConfigServer.constructor | src/dynamic_config.rs:155-191 | A start leaves memory as the file plus the stored overrides |
| DynamicConfig.ConfigServer.UpdateConfigSection | src/api/admin_config.rs:117-177 | The checks, their errors and their order, then memory, then the table if it can be written |
| DynamicConfig.ConfigServer.ResetConfigSection | src/api/admin_config.rs:194-235 | Likewise for a reset to the file's section |
| DynamicConfig.ConfigServer.Restart | src/dynamic_config.rs:155-191 | A restart depends only on the file and the table, an unreadable table counting as empty |
| DynamicConfig.ConfigServer.GetConfig | src/api/admin_config.rs:70-98 | An entry is listed if and only if the file releases its section and it has the value in memory and the flag whether a row is stored; each section once, in the fixed order |
| DynamicConfig.AllListed | src/api/admin_config.rs:70-98 | A section is listed if and only if the file releases it, once and in the fixed order, with the value in memory and the flag whether a row is stored |
| DynamicConfig.StepKeepsCoherence | src/dynamic_config.rs:284-365 | Every update, reset and restart that reaches the table keeps memory and table in agreement |
| DynamicConfig.AlwaysCoherent | src/dynamic_config.rs:157-365 | Over every run in which the table can be written and read, memory is what a reload would give |
| DynamicConfig.AgreesIffLastTouchLanded | src/api/admin_config.rs:117-235 | Over every run, whatever fails in it, memory and table agree on a section exactly when the last operation on it reached the table or left there what file and table give anyway |
| DynamicConfig.FixedSectionsNeverChange | src/dynamic_config.rs:285-365 | Over every run, whatever fails in it, sections the file does not release equal the file |
| DynamicConfig.StoredAlwaysValid | src/dynamic_config.rs:284-331 | From an empty table, over every run, whatever fails in it, only validated values are stored, and memory holds the file's sections and validated values only |
| DynamicConfig.FailedUpdateCoherentIffNoChange | src/api/admin_config.rs:134-142 | After a failed write memory and table agree exactly when the value did not change, and differ in that section at most |
| DynamicConfig.FailedResetCoherentIffNoChange | src/api/admin_config.rs:202-210 | Likewise for a reset whose row could not be deleted |
| DynamicConfig.PersistedUpdateRepairs | src/api/admin_config.rs:134-142 | A later persisted update makes the section agree again |
| DynamicConfig.PersistedResetRepairs | src/api/admin_config.rs:202-210 | A later persisted reset does so too |
| DynamicConfig.UnreadableStartCoherentIff | src/dynamic_config.rs:162-165 | A start that could not read the table agrees with it exactly when no stored row would change the file |
| DynamicConfig.ListingIsTruthful | src/api/admin_config.rs:85-95 | A section listed as not overridden has the file's value, and an overridden one the stored value |
| Sql.PageCountIsLeast | src/api/biblios.rs:75-85 | The page count is the least number of pages that holds all rows |
| Sql.PagesTile | src/repository/audit_log.rs:133-135 | Pages one to the page count, put together, are the whole result once, in order |
| Sql.OffsetFits | src/repository/audit_log.rs:135 | The computed offset is the intended one exactly when that fits 64 bits |
| Sql.CountedPagesFit | src/repository/audit_log.rs:133-135 | No page up to the page count overflows |
| Sql.HugePageWraps | src/repository/audit_log.rs:135 | A page number for which the first page is returned instead of an empty one |
| AuditQuery.BuildConditions | src/repository/audit_log.rs:137-171 | The first pass numbers the placeholders of the supplied filters consecutively and ends at the next free number |
| AuditQuery.BindFilters | src/repository/audit_log.rs:188-240 | The second pass binds the supplied values in the filters' order |
| AuditQuery.GeneratedClauseMeansFilters | src/repository/audit_log.rs:137-177 | For every choice of filters an entry is selected exactly when it meets all supplied filters |
| AuditQuery.WhereIsMatching | src/repository/audit_log.rs:173-185 | Over every table the clause selects exactly the matching entries, whatever is bound after the filters |
| AuditQuery.AuditQueryPage | src/repository/audit_log.rs:131-269 | The answer names the page and size asked for (default 1 and 50, cut to at least 1 and to 1 to 500) and the number of matching entries; if the offset fits 64 bits its rows are those at positions (page - 1) * size up to page * size of the sorted matching entries. It is the direct reading exactly when the offset fits or wraps to one behind the last entry, and an error exactly when it wraps to a negative one |
| AuditQuery.AnswerIsDirectIff | src/repository/audit_log.rs:131-269 | The rows at a wrapped offset are those of the requested page exactly when the offset fits 64 bits or lies behind the last entry |
| AuditQuery.AsksForEffective | src/repository/audit_log.rs:131-135 | Page and size that count: a missing or smaller page is 1, a missing size 50, any other cut to 1 to 500 |
| AuditQuery.NewestFirstSorts | src/repository/audit_log.rs:180-185 | The order is newest first, with no entry lost or added |
| AuditQuery.ExportClauseMeansFilters | src/repository/audit_log.rs:278-298 | The export's own numbering selects exactly the entries in the date range and of the event type |
| AuditQuery.ExportMeansFilters | src/repository/audit_log.rs:278-305 | The same over every table |
| AuditQuery.AuditExport | src/repository/audit_log.rs:271-338 | The export is the first 50,000 matching entries, newest first |
| DynamicUpdate.GeneratedUpdateIsMerge | src/repository/account_types.rs:79-129 | For every subset of supplied fields, executing the SET list under its positional binds is the direct merge |
| DynamicUpdate.MergeTouchesSuppliedOnly | src/repository/account_types.rs:79-95 | A column changes exactly to its supplied value; untouched columns keep theirs |
| AccountTypes.BuildSets | src/repository/account_types.rs:76-95 | The SET list of the supplied fields, and the number left for the key |
| AccountTypes.BindFields | src/repository/account_types.rs:112-127 | The bind list of the supplied fields |
| AccountTypes.StatementIsMerge | src/repository/account_types.rs:103-129 | The whole statement changes the row with that code only, and the key placeholder gets the code |
| AccountTypes.UpdateOfEachColumn | src/repository/account_types.rs:88-95 | Each column of an updated row is the requested value or the old one |
| AccountTypes.MergedIsUpdated | src/repository/account_types.rs:88-95 | All eight columns of the updated row by name: the text supplied for it, or what it had |
| AccountTypes.NothingBoundIff | src/repository/account_types.rs:97-101 | There is nothing to bind exactly when no field is supplied |
| AccountTypes.Table.AccountTypesUpdate | src/repository/account_types.rs:71-134 | Nothing supplied is an error and no change, an unknown code is an error and no change, else the row is merged |
| Equipment.BuildSets | src/repository/equipment.rs:101-120 | The SET list always starts with the timestamp |
| Equipment.BindFields | src/repository/equipment.rs:124-140 | The bind list always starts with the time |
| Equipment.UpdateOfEachColumn | src/repository/equipment.rs:102-120 | Each column of an updated row is the requested value or the old one, and the timestamp is the time of the call |
| Equipment.MergedIsUpdated | src/repository/equipment.rs:102-140 | All eight columns of the updated row by name, each with a value of its own type |
| Equipment.Table.EquipmentUpdate | src/repository/equipment.rs:100-146 | The row with that id is merged and the timestamp set even when no field is supplied; an unknown id changes nothing |
| EmailTemplates.SubstituteStr | src/email_templates.rs:162-169 | The loop is one replacement pass per variable, in the order given |
| PlaceholderSafety.PassOver | src/email_templates.rs:162-169 | One pass over a text with harmless values fills exactly the placeholders of its name |
| PlaceholderSafety.SubstitutionIsSimultaneous | src/email_templates.rs:151-169 | Sequential substitution of safe variables fills all placeholders at once, in every template whose literals with opening braces are among those they are safe with |
| PlaceholderSafety.SimultaneousThroughoutIff | src/email_templates.rs:162-169 | For any literals with opening braces: every template over them is filled simultaneously after every pass exactly when the variables are safe with them, that is, no earlier value or literal contains a variable's placeholder, ends inside it, or begins it with its neighbour |
| PlaceholderSafety.TwoVariablesIff | src/email_templates.rs:162-169 | The same for two variables and the final text alone, without literals with opening braces |
| PlaceholderSafety.LaterPassRepairs | src/email_templates.rs:162-169 | Three variables that are not safe, because one pass damages a value and the next repairs it, and whose final text is the intended one for every template |
| PlaceholderSafety.PlainIsSafe | src/email_templates.rs:162-169 | Values without opening braces are safe with every literal that does no harm itself |
| PlaceholderSafety.VariableOrderIsIrrelevant | src/email_templates.rs:162-169 | The order of distinct variables does not matter for brace-free values and harmless literals |
| PlaceholderSafety.NoBoundPlaceholderSurvives | src/email_templates.rs:162-169 | No placeholder of a bound variable is left anywhere in the result, for brace-free values and harmless literals |
| PlaceholderSafety.NestedPlaceholderIsExpanded | src/email_templates.rs:162-169 | A lone placeholder is filled as intended exactly when its value does not contain the later variable's placeholder |
| EmailTemplateStore.LanguageChain | src/email_templates.rs:48-58 | Exactly French and English are tried, English first only when asked for |
| EmailTemplateStore.TemplateStore.BootstrapFromFiles | src/email_templates.rs:171-232 | Seeding adds exactly the missing rows with a file, never touches a row, counts what it added, and fails exactly on a malformed file it needs |
| EmailTemplateStore.TemplateStore.LoadTemplate | src/email_templates.rs:60-87 | The two loops are the cascade: rows in language order, then files in language order |
| EmailTemplateStore.CascadeIsLoaded | src/email_templates.rs:60-87 | English and French, English first only for a reader of English: a row in either before any file, a malformed file is an error, a missing one is not; the texts are the row's or the file's own |
| EmailTemplateStore.SeededTemplateIsFile | src/email_templates.rs:171-216 | A seeded row has its file's subject and bodies and its trimmed name, and its language loads them |
| EmailTemplateStore.SecondBootstrapAddsNothing | src/email_templates.rs:185-216 | Seeding again changes nothing, so edited rows survive restarts |
| EmailTemplateStore.SeededTemplatesAlwaysLoad | src/email_templates.rs:60-87 | After seeding, a known template with a file loads from the table for every language, whatever becomes of the files |
| EmailTemplateStore.RowBeatsFile | src/email_templates.rs:70-80 | A row in the second language is preferred to a file in the first |
| CatalogKeys.KeyCharByCodePoint | src/repository/catalog_entities.rs:70-81 | Accented letters become the plain ones, by code point; other letters and digits stay; all else separates |
| CatalogKeys.NormalizeHalvesGaps | src/repository/catalog_entities.rs:67-85 | Each inner run of k separators becomes a run of half of k rounded up; words stay, the ends are trimmed |
| CatalogKeys.NormalizeTwice | src/repository/catalog_entities.rs:82-83 | A second normalisation changes nothing exactly when no inner run had three or more separators |
| CatalogKeys.KeysSettle | src/repository/catalog_entities.rs:67-85 | Repeated normalisation reaches a fixed point for every text |
| LikeSearch.EscapeIsPerCharacter | src/repository/catalog_entities.rs:97 | The two escaping passes are one escape per character |
| LikeSearch.SearchMeansSubstring | src/repository/catalog_entities.rs:97-99 | Without backslash the pattern matches exactly the texts that contain the searched name |
| LikeSearch.SearchIsSubstringIffNoBackslash | src/repository/catalog_entities.rs:97 | That holds for all texts if and only if the searched name has no backslash |
| LikeSearch.FoldedSearchMeansSubstring | src/repository/catalog_entities.rs:97-108 | It still holds when stored name and whole pattern are folded, for names that fold cleanly |
| LikeSearch.FoldedSearchIffClean | src/repository/catalog_entities.rs:97-108 | Over all stored names the folded search means folded substring if and only if no character of the searched name is a backslash or folds into a wildcard or backslash |
| LikeSearch.CleanIffNoBackslash | src/repository/catalog_entities.rs:97-108 | For foldings that make no special characters of others that is the absence of backslashes |
| CsvExport.EscapedIff | src/api/biblios.rs:741-747 | A field is written as it is exactly when it has no comma, quote or line end, and is quoted otherwise |
| CsvExport.FieldsShowBiblio | src/api/biblios.rs:702-724 | Which value stands in which column; a missing one is empty, and the author is first name, blank, last name, trimmed |
| CsvExport.BothNamesShown | src/api/biblios.rs:703-715 | Trimmed names: both with a blank between, or the one there is, or nothing |
| CsvExport.FieldIsRead | src/api/biblios.rs:741-747 | An escaped field and its delimiter are read as that field, whatever it contains |
| CsvExport.LineIsRecord | src/api/biblios.rs:702-724 | A printed line is the record of its seven values; the unescaped id and count need no quotes |
| CsvExport.ExportBibliosCsv | src/api/biblios.rs:700-725 | Reading the exported file with an RFC 4180 section 2 reader gives the header and every biblio's seven values |
| CsvExport.CsvRoundTrip | src/api/biblios.rs:741-747 | Any table of non-empty records survives writing and reading, with any commas, quotes and newlines |
| HtmlEscape.EscapeIsPerCharacter | src/inventory_email.rs:150-155 | Four passes in this order are one escape per character |
| HtmlEscape.EscapeRoundTrip | src/inventory_email.rs:150-155 | Escaping is undone by unescaping and leaves no bracket or quote |
| InventoryEmail.ItemLine | src/inventory_email.rs:142-148 | A line names the title, or that it is unknown, and the barcode if there is one that is not empty |
| InventoryEmail.NamesAreBound | src/inventory_email.rs:36-65 | First name, last name and session are bound to their own values, a missing name to the empty text |
| InventoryEmail.HtmlListIsBound | src/inventory_email.rs:49-67 | The HTML list is bound to all items of the reader, in order |
| InventoryEmail.GroupByUser | src/inventory_email.rs:21-24 | The groups are those of the readers that occur, each with its rows in order |
| InventoryEmail.EveryRowInOneGroup | src/inventory_email.rs:21-24 | Every row is in its reader's group as often as given and in no other group |
| InventoryEmail.QueuedMailListsEveryLoan | src/inventory_email.rs:39-76 | A queued mail whose template shows the list of items has the line of every loan of its reader in its text, and that loan among those booked |
| InventoryEmail.DeliverAll | src/inventory_email.rs:29-137 | In whatever order the groups come, messages and errors are exactly those called for, each once |
| InventoryEmail.SendLoanClosureNotifications | src/inventory_email.rs:13-140 | Sent, errors and readers without address add up to the number of readers |
| InventoryEmail.EveryReaderOnce | src/inventory_email.rs:29-137 | Every reader has exactly one of the three outcomes |
| InventoryEmail.MailListsReadersLoans | src/inventory_email.rs:57-76 | A queued message goes to its reader's address and lists exactly that reader's loans, in order |
| InventoryEmail.VariablesArePlain | src/inventory_email.rs:62-68 | The five variables are brace-free but for the last exactly when names, session and item lines have no opening brace |
| InventoryEmail.BraceFreeDataIsSafe | src/inventory_email.rs:62-68 | Such data are safe to substitute in every template whose literals do no harm themselves |
| InventoryEmail.MessageIsFilledTemplate | src/inventory_email.rs:62-69 | With safe data the message is its template filled at once, and without an HTML part its HTML is the filled plain text with marked line ends |
| InventoryEmail.ItemLinesAreEscaped | src/inventory_email.rs:49-55 | The HTML list carries no markup of the readers' data, and the data can be read back |
| FinesLedger.FinesTable.Accrue | src/services/fines.rs:37-65 | The rule of the media type or the default one, the grace period, the cap, and no row for an amount that is not positive |
| FinesLedger.RuleForIff | src/services/fines.rs:46-50 | The rule that applies is the first for the media type or, if there is none, the first default one; none applies exactly when there is neither |
| FinesLedger.AccrualIsCharged | src/services/fines.rs:37-65 | What accrual does under the rule that applies: the daily rate for each day beyond the grace period, at most the cap; no row without a rule or for an amount that is not positive; else that one row, pending and unpaid |
| FinesLedger.FinesTable.Create | src/repository/fines.rs:116-139 | One row is added, pending and unpaid |
| FinesLedger.FinesTable.Pay | src/repository/fines.rs:143-169 | A positive payment on a known id is added to that fine, whose status and date follow from the new total; other rows stay, an unknown id or another amount is an error and changes nothing |
| FinesLedger.PaymentChangesTotal | src/repository/fines.rs:143-169 | After any run a payment changes its reader's unpaid total by the change of the fine's open part, and no one else's; it lowers it by what it covers exactly when the fine is not waived, or is covered by then |
| FinesLedger.PaymentOnWaivedRaisesTotal | src/repository/fines.rs:150-160 | A run in which a payment of 3 on a waived fine of 10 makes its reader owe 7 |
| FinesLedger.FinesTable.Waive | src/repository/fines.rs:173-183 | The fine with that id is waived and dated and keeps its payments; other rows stay, an unknown id is an error and changes nothing |
| FinesLedger.WaiverLowersTotal | src/repository/fines.rs:173-183 | After any run a waiver takes the open part of its fine off its reader's unpaid total, and nothing else |
| FinesLedger.FinesTable.TotalUnpaid | src/repository/fines.rs:225-234 | The sum over pending and partial fines of the user |
| FinesLedger.LedgerAlwaysAgrees | src/repository/fines.rs:116-183 | Over every run the status is the one the amounts call for, the date is set exactly for paid and waived fines, and the paid amount is the sum of the payments received |
| FinesLedger.StatusFilterIsExact | src/repository/fines.rs:227-228 | On consistent fines the status filter selects exactly the open amounts, and the total is never negative |
| FinesLedger.UnpaidTotalIsOwed | src/repository/fines.rs:223-234 | After every run the stored sum is what the user owes, computed from the amounts alone |
| FinesLedger.NewFineConsistentIffPositive | src/services/fines.rs:58-62 | A new row is consistent exactly when its amount is positive, which is why accrual refuses the others |
| FinesLedger.PaymentReopensWaivedFine | src/repository/fines.rs:150-160 | A payment reopens a waived fine; its rest is owed again unless the payment completes it |
| FinesLedger.AccruedAmountBounds | src/services/fines.rs:52-56 | Accrued amounts grow with the delay, stay within the cap and are not positive within the grace period |

## Left out

- PlaceholderSafety.SimultaneousThroughoutIff: for three and more variables the exact condition is
  for the texts after every pass; for the final text alone it is sufficient but not necessary, as
  `LaterPassRepairs` shows.
- LikeSearch.FoldedSearchIffClean: for foldings that leave the special characters and the letter x
  alone and change nothing when applied again.
- Runs of the migration into a target that is not empty, its `--skip-items` mode, and its stages
  for users (but for the logins; barcodes, addresses and account types of users may be refused too),
  account types, fees, authors, editions, collections, series,
  sources, loan settings and Z39.50 servers.
- Columns that the migration copies or converts on their own and that cannot be refused: language,
  audience, keywords, notes, prices, public type of archived loans. Timestamps are assumed valid.
- Barcode values in the legacy data that are not text.
- Fields of MARC local items and records that the translation neither reads nor fills, and the
  import preview.
- The `ip_address`, `payload`, HTTP status and message columns of the audit log, and SQL type checks
  in UPDATE statements.
- Masking of secrets, admin checks, audit entries, the reload of logging and the wake-up of the
  scheduler around configuration changes.
- Paging of the series and collection searches, and creating, updating and deleting series and
  collections; of the searches only the match is modelled.
- Lower-casing, accents and other Unicode details of folding: taken as already applied.
- Loans, holds, inventory sessions, tasks and statistics: database services that none of
  the modules above needs.
- HTTP routing, authentication, password hashing, mail transport, search engine, Z39.50, backup.
- Single-field validators and the enum-to-string tables that the translator does not need: easy
  members.
