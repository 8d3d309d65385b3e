# lucene-tutorial in Dafny

This project models the logic of the lucene-tutorial ingest-and-search
pipeline and proves properties of it:

- **Extraction.** A zip archive of HTML Bible pages becomes a stream of
  field maps. This is covered by `DocumentExtractorBibleZipImpl` and the
  older `IngestDocumentZipProducer`:
  - the book-name index read from `index.htm` entries;
  - the lazy `IngestDocumentIterator` with its `next` slot, stream and
    sticky `done` flag;
  - chapter and book-id parsing;
  - the synopsis/keywords scan.
- **Transformation.** `DocumentTransformerHtmlBibleImpl` turns each
  field-map entry into Lucene fields.
- **Loading.** `LuceneLoadingCollectorImpl` and the older
  `LuceneLoadingCollector` cover the session lifecycle, the
  supplier/accumulator/combiner/finisher, the document count and the
  first-failure slot.
- **Search.** `QueryTutorialBase` covers the reader lifecycle, one row per
  hit, the scalar-then-list flattening of repeated stored fields and
  `storedValueToObject`. `SearchResults` and its `Builder` are modelled
  too.

Modules, one file each:

| file | module | what it holds |
|---|---|---|
| `wrappers.dfy` | `Wrappers` | `Option`, `Result`, `Outcome` (a call that may throw) |
| `errors.dfy` | `Errors` | Java exceptions as a datatype; `LuceneTutorialException` wrapping |
| `java_strings.dfy` | `JavaStrings` | the JDK string and path operations the code relies on: `String.split`, `Integer.parseInt`, `trim`, `lastIndexOf`, `Path.getName` / `getFileName` |
| `documents.dfy` | `Documents` | `ExtractedDocument`, field values, `Instant` and `toEpochMilli` |
| `zip_archive.dfy` | `ZipArchive` | archive entries, `bookNameIndex`, `chapter()`, the per-entry outcomes both iterators step through |
| `bible_zip_extractor.dfy` | `BibleZipExtractor` | `DocumentExtractorBibleZipImpl` and its `IngestDocumentIterator` |
| `ingest_zip_producer.dfy` | `IngestZipProducer` | `IngestDocumentZipProducer` and its `IngestDocumentIterator` |
| `transformer.dfy` | `Transformer` | `transformExtractedDocument` |
| `loading.dfy` | `Loading` | the session (`DocumentLoaderSupplierObj`), the forced writer configuration, and the sequence of `addDocument` attempts |
| `loading_collector_impl.dfy` | `LoadingCollectorImpl` | `LuceneLoadingCollectorImpl` |
| `loading_collector_legacy.dfy` | `LoadingCollectorLegacy` | `LuceneLoadingCollector` |
| `search_results.dfy` | `Search` | `SearchResult`, `SearchResults` and `SearchResults.Builder` |
| `query_tutorial_base.dfy` | `QueryTutorial` | `QueryTutorialBase` |

**Stateful code is written as classes.** The iterators, the collectors, the
query base and the builder are Dafny classes with the Java fields. Their
methods are proved against specification functions:

- An iterator method is stated through `Outcomes`, the outcome of every
  archive entry by position. `Emitted` lists the documents those outcomes
  hold. `Collect` (hasNext/next until exhausted) returns `Drained`: every
  document, or the first failure.
- A collector keeps a ghost log of its `addDocument` attempts. Its
  `Valid()` ties `counter` and `firstFailure` to that log.

**Lucene, the zip stream and the clock are oracles.** Their answers come in
as parameters:

- a zip entry's content is a `Result`, so a failed read is a `Failure`;
- each writer or reader call is an `Outcome` or a `Result`;
- the search answer is a `TopDocs` result;
- each hit's stored fields come from a function of the document id;
- the clock is a function from entry position to `Instant`.

**Regex patterns are abstract matchers.** They are fields of `Matchers`, or
a `matcher` parameter, returning `Option` of the captured groups. The
`", "` split and the `"Audio"` rule stay concrete.

## Model

Source paths are relative to the repository root.

| member | source | states |
|---|---|---|
| JavaStrings.Split | src/main/java/j/lucene/tutorial/extract/impl/DocumentExtractorBibleZipImpl.java:62 | splitting on a non-empty delimiter always gives at least one piece |
| JavaStrings.JoinSplit | src/main/java/j/lucene/tutorial/extract/impl/DocumentExtractorBibleZipImpl.java:62 | joining the pieces with the delimiter gives the input back |
| JavaStrings.StripTrailingEmpty | src/main/java/j/lucene/tutorial/extract/impl/DocumentExtractorBibleZipImpl.java:62 | the result is a prefix of the pieces, every dropped piece is empty, and the result is empty or ends in a non-empty piece |
| JavaStrings.NoPieceHoldsDelimiter | src/main/java/j/lucene/tutorial/extract/impl/DocumentExtractorBibleZipImpl.java:62 | the string is cut at every occurrence of the delimiter: no piece contains it, and the first piece is a prefix of the input |
| JavaStrings.SplitWhole | src/main/java/j/lucene/tutorial/extract/impl/DocumentExtractorBibleZipImpl.java:62 | the split gives a single piece exactly when the delimiter does not occur in the input |
| JavaStrings.JavaSplitKeepsPrefix | src/main/java/j/lucene/tutorial/extract/impl/DocumentExtractorBibleZipImpl.java:157 | Java's split keeps a prefix of the raw pieces and drops only trailing empty ones; input without the delimiter comes back whole, and otherwise the pieces lose only their trailing empty ones |
| JavaStrings.ParseInt | src/main/java/j/lucene/tutorial/extract/impl/DocumentExtractorBibleZipImpl.java:175 | a parsed value always lies in the 32-bit int range |
| JavaStrings.NatToDigits | src/main/java/j/lucene/tutorial/extract/impl/DocumentExtractorBibleZipImpl.java:175 | a decimal numeral is non-empty and all digits |
| JavaStrings.DigitsRoundTrip | src/main/java/j/lucene/tutorial/extract/impl/DocumentExtractorBibleZipImpl.java:175 | the value of a natural's numeral is that natural |
| JavaStrings.ParseIntToString | src/main/java/j/lucene/tutorial/extract/impl/DocumentExtractorBibleZipImpl.java:175 | parseInt(toString(n)) == n for every int |
| JavaStrings.TrimStart | src/main/java/j/lucene/tutorial/extract/impl/DocumentExtractorBibleZipImpl.java:66 | the result is a suffix of the input that starts with a character above space, or is empty |
| JavaStrings.TrimEnd | src/main/java/j/lucene/tutorial/extract/impl/DocumentExtractorBibleZipImpl.java:66 | the result is a prefix of the input that ends with a character above space, or is empty |
| JavaStrings.TrimKeepsMiddle | src/main/java/j/lucene/tutorial/extract/impl/DocumentExtractorBibleZipImpl.java:66 | trim removes only control and space characters from the two ends, and keeps the middle |
| JavaStrings.TrimIdempotent | src/main/java/j/lucene/tutorial/extract/impl/DocumentExtractorBibleZipImpl.java:66 | trimming twice is trimming once |
| JavaStrings.LastIndexOf | src/main/java/j/lucene/tutorial/extract/impl/DocumentExtractorBibleZipImpl.java:172 | the last position holding the character, or -1 when the character does not occur |
| JavaStrings.HtmFileName | src/main/java/j/lucene/tutorial/extract/impl/DocumentExtractorBibleZipImpl.java:171-173 | a name ending in ".htm" has a file name that contains a '.', so the substring before the last dot exists |
| Documents.EpochMilliIsFloor | src/main/java/j/lucene/tutorial/transform/impl/DocumentTransformerHtmlBibleImpl.java:37-39 | toEpochMilli is seconds times 1000 plus the whole milliseconds of the nanos, and throws when that leaves the long range |
| ZipArchive.BookNameIndex | src/main/java/j/lucene/tutorial/extract/impl/DocumentExtractorBibleZipImpl.java:55-77 | the nested loops fill the same map as the entry-by-entry, line-by-line definition, including its failure cases |
| ZipArchive.LastDefinition | src/main/java/j/lucene/tutorial/extract/impl/DocumentExtractorBibleZipImpl.java:63-67 | the position of the last matching line whose id parses to the given id; no later line defines that id |
| ZipArchive.IndexFromReadsIndexLines | src/main/java/j/lucene/tutorial/extract/impl/DocumentExtractorBibleZipImpl.java:60-69 | a successful index is the lines of all `index.htm` entries, in archive order, read as one run |
| ZipArchive.AddIndexLinesLastWins | src/main/java/j/lucene/tutorial/extract/impl/DocumentExtractorBibleZipImpl.java:63-67 | after a run of lines an id maps to the trimmed name on its last defining line; an id no line defines keeps its earlier mapping |
| ZipArchive.BookNameIndexLastWins | src/main/java/j/lucene/tutorial/extract/impl/DocumentExtractorBibleZipImpl.java:60-68 | an id is in the index exactly when some index line defines it, and it maps to the trimmed name on the last such line |
| ZipArchive.Qualifying | src/main/java/j/lucene/tutorial/extract/impl/DocumentExtractorBibleZipImpl.java:146-148 | every listed entry is a ".htm" page whose stem parses as an int |
| ZipArchive.ChapterOfNumeral | src/main/java/j/lucene/tutorial/extract/impl/DocumentExtractorBibleZipImpl.java:170-179 | an entry named dir/N.htm has chapter N for every int N |
| ZipArchive.NextEvent | src/main/java/j/lucene/tutorial/extract/impl/DocumentExtractorBibleZipImpl.java:131-137 | the first entry from a position that is not skipped, or the end; everything in between is skipped |
| ZipArchive.EmittedAcrossSkips | src/main/java/j/lucene/tutorial/extract/impl/DocumentExtractorBibleZipImpl.java:131-137 | skipped entries add no document |
| ZipArchive.FirstFailure | src/main/java/j/lucene/tutorial/extract/impl/DocumentExtractorBibleZipImpl.java:140-142 | the first entry whose outcome is a failure; none before it fails |
| BibleZipExtractor.KeywordTokensAreSplitPieces | src/main/java/j/lucene/tutorial/extract/impl/DocumentExtractorBibleZipImpl.java:211-224 | keywords are the ", " pieces with a leading "Audio" dropped; the split fails (kArr[0] out of bounds) exactly when a non-empty capture is all separators |
| BibleZipExtractor.MaybeAddSynopsisAndKeywords | src/main/java/j/lucene/tutorial/extract/impl/DocumentExtractorBibleZipImpl.java:181-196 | the flag-driven loop computes the scan's metadata, or its keywords failure |
| BibleZipExtractor.FirstSynopsisFrom | src/main/java/j/lucene/tutorial/extract/impl/DocumentExtractorBibleZipImpl.java:198-210 | the first line from a position that either synopsis pattern matches |
| BibleZipExtractor.FirstKeywordsFrom | src/main/java/j/lucene/tutorial/extract/impl/DocumentExtractorBibleZipImpl.java:211-213 | the first line from a position that the keywords pattern matches |
| BibleZipExtractor.LastKeywordsIn | src/main/java/j/lucene/tutorial/extract/impl/DocumentExtractorBibleZipImpl.java:191 | the last keywords line in a range; no later line in the range matches |
| BibleZipExtractor.ScanAfterSynopsis | src/main/java/j/lucene/tutorial/extract/impl/DocumentExtractorBibleZipImpl.java:191-194 | once the synopsis is found, the scan stops at the first keywords line after it |
| BibleZipExtractor.ScanBeforeSynopsis | src/main/java/j/lucene/tutorial/extract/impl/DocumentExtractorBibleZipImpl.java:184-195 | the synopsis is the first matching line; the keywords come from the chosen keywords line, never from the synopsis line |
| BibleZipExtractor.ScanFailsOnlyOnKeywords | src/main/java/j/lucene/tutorial/extract/impl/DocumentExtractorBibleZipImpl.java:211-218 | the scan can only fail with the keywords split's IndexOutOfBounds |
| BibleZipExtractor.PageDocumentFields | src/main/java/j/lucene/tutorial/extract/impl/DocumentExtractorBibleZipImpl.java:150-166 | a chapter page's map holds chapter, book, text, add_timestamp and source, and synopsis and keywords exactly when the scan found them, with those values |
| BibleZipExtractor.PopulateNextOutcome | src/main/java/j/lucene/tutorial/extract/impl/DocumentExtractorBibleZipImpl.java:145-168 | an entry is skipped exactly when it is not a chapter page; a document has the chapter, the text unchanged, the looked-up book (null when missing), the clock reading, the archive name, and synopsis/keywords exactly as scanned; a failure is the book-id error or a wrapped read or keywords error |
| BibleZipExtractor.OnePerQualifyingEntry | src/main/java/j/lucene/tutorial/extract/impl/DocumentExtractorBibleZipImpl.java:131-148 | with no failing entry, the iterator yields one document per qualifying entry, in archive order, each made from its entry |
| BibleZipExtractor.IngestDocumentIterator.constructor | src/main/java/j/lucene/tutorial/extract/impl/DocumentExtractorBibleZipImpl.java:93-97 | the index, the archive's file name as source, no pending document, stream not opened, not done |
| BibleZipExtractor.IngestDocumentIterator.MaybePopulateNext | src/main/java/j/lucene/tutorial/extract/impl/DocumentExtractorBibleZipImpl.java:145-168 | the slot gets the entry's document, stays as it was for a skipped entry, and a failure is reported |
| BibleZipExtractor.IngestDocumentIterator.Advance | src/main/java/j/lucene/tutorial/extract/impl/DocumentExtractorBibleZipImpl.java:115-143 | a no-op when done or pending; otherwise it stops just after the next non-skipped entry, holding its document or throwing its wrapped failure, or closes the stream and sets done at the end; the invariant holds throughout |
| BibleZipExtractor.IngestDocumentIterator.HasNext | src/main/java/j/lucene/tutorial/extract/impl/DocumentExtractorBibleZipImpl.java:99-103 | true exactly when a document is pending; false means done with every document handed out; repeatable once done |
| BibleZipExtractor.IngestDocumentIterator.Next | src/main/java/j/lucene/tutorial/extract/impl/DocumentExtractorBibleZipImpl.java:105-113 | returns the next document and clears the slot, throws NoSuchElement when exhausted, or throws the next entry's failure |
| BibleZipExtractor.DocumentsFromFilePath | src/main/java/j/lucene/tutorial/extract/impl/DocumentExtractorBibleZipImpl.java:47-53 | the index is built first and its failure is thrown from the call; otherwise a fresh iterator over the archive |
| BibleZipExtractor.Collect | src/main/java/j/lucene/tutorial/extract/impl/DocumentExtractorBibleZipImpl.java:99-143 | consuming the stream gives every document in entry order, or the first entry's failure, wrapped |
| IngestZipProducer.PopulateNextOutcome | src/main/java/j/jdyer1/ingest/impl/IngestDocumentZipProducer.java:126-146 | skipped exactly when not a chapter page; a document has exactly chapter, book, text, add_timestamp and source; failures are the book-id error or a wrapped read error |
| IngestZipProducer.OnePerQualifyingEntry | src/main/java/j/jdyer1/ingest/impl/IngestDocumentZipProducer.java:112-129 | with no failing entry, one document per qualifying entry, in archive order |
| IngestZipProducer.IngestDocumentIterator.constructor | src/main/java/j/jdyer1/ingest/impl/IngestDocumentZipProducer.java:74-78 | the index and the archive's file name as source; nothing pending, not opened, not done |
| IngestZipProducer.IngestDocumentIterator.MaybePopulateNext | src/main/java/j/jdyer1/ingest/impl/IngestDocumentZipProducer.java:126-146 | the slot gets the entry's document, is unchanged for a skipped entry, and a failure is reported |
| IngestZipProducer.IngestDocumentIterator.Advance | src/main/java/j/jdyer1/ingest/impl/IngestDocumentZipProducer.java:96-124 | as in the newer extractor: stop after the next non-skipped entry, or close and set done |
| IngestZipProducer.IngestDocumentIterator.HasNext | src/main/java/j/jdyer1/ingest/impl/IngestDocumentZipProducer.java:80-84 | true exactly when a document is pending; false means everything was handed out |
| IngestZipProducer.IngestDocumentIterator.Next | src/main/java/j/jdyer1/ingest/impl/IngestDocumentZipProducer.java:86-94 | the next document, NoSuchElement when exhausted, or the next entry's failure |
| IngestZipProducer.ProduceDocuments | src/main/java/j/jdyer1/ingest/impl/IngestDocumentZipProducer.java:32-38 | index failure thrown from the call; otherwise a fresh iterator |
| IngestZipProducer.Collect | src/main/java/j/jdyer1/ingest/impl/IngestDocumentZipProducer.java:80-124 | every document in entry order, or the first entry failure, wrapped |
| Transformer.AddEntryFields | src/main/java/j/lucene/tutorial/transform/impl/DocumentTransformerHtmlBibleImpl.java:34-46 | the loop body, with its inner loop over an array's elements, appends exactly the fields `EncodeEntry` gives the entry, or throws its exception |
| Transformer.EncodeEntry | src/main/java/j/lucene/tutorial/transform/impl/DocumentTransformerHtmlBibleImpl.java:34-46 | every field an entry produces is named after the entry's key |
| Transformer.TransformExtractedDocument | src/main/java/j/lucene/tutorial/transform/impl/DocumentTransformerHtmlBibleImpl.java:31-50 | the nested loops produce the entries' fields in iteration order, or the first entry's exception; on success every entry is transformed exactly once: one field per entry (one per element for an array), and each entry's fields are exactly its own |
| Transformer.EncodedKeepsFailure | src/main/java/j/lucene/tutorial/transform/impl/DocumentTransformerHtmlBibleImpl.java:33-48 | a failing entry ends the transformation with its exception, whatever follows |
| Transformer.EncodeEntryMeaning | src/main/java/j/lucene/tutorial/transform/impl/DocumentTransformerHtmlBibleImpl.java:34-46 | "text" gives one TextField whatever the value; a timestamp gives one unstored LongField of its epoch millis; an array gives one stored KeywordField per element, unchanged and in order; an int gives one unstored StringField of its decimal text, which parseInt reads back; a String gives one unstored StringField of itself; a null throws |
| Transformer.EveryEntryOnce | src/main/java/j/lucene/tutorial/transform/impl/DocumentTransformerHtmlBibleImpl.java:32-49 | when the iteration lists every key once, a successful transformation has exactly one field per entry (one per element for an array), and each entry's fields are exactly what that entry encodes to |
| Transformer.EncodedLength | src/main/java/j/lucene/tutorial/transform/impl/DocumentTransformerHtmlBibleImpl.java:32-49 | there is no allow-list: one field per non-array entry plus the array lengths |
| Transformer.EncodedFailsIffAnEntryFails | src/main/java/j/lucene/tutorial/transform/impl/DocumentTransformerHtmlBibleImpl.java:33-48 | the transformation throws exactly when one of its entries does |
| Transformer.UnresolvedBookFails | src/main/java/j/lucene/tutorial/transform/impl/DocumentTransformerHtmlBibleImpl.java:45 | a document whose book is null cannot be transformed |
| Transformer.FieldsOfKey | src/main/java/j/lucene/tutorial/transform/impl/DocumentTransformerHtmlBibleImpl.java:33-48 | fields are grouped by entry: the fields named after a key are exactly that entry's fields |
| Loading.Configure | src/main/java/j/lucene/tutorial/load/impl/LuceneLoadingCollectorImpl.java:45-49 | the configuration used is CREATE_OR_APPEND without compound files, with the caller's other settings kept |
| Loading.Attempts | src/main/java/j/lucene/tutorial/load/impl/LuceneLoadingCollectorImpl.java:115-131 | one attempt per document, pairing it with the writer's answer |
| Loading.FirstFailing | src/main/java/j/lucene/tutorial/load/impl/LuceneLoadingCollectorImpl.java:124 | the position of the first refused document; all before it were accepted |
| Loading.SuccessesAndFailures | src/main/java/j/lucene/tutorial/load/impl/LuceneLoadingCollectorImpl.java:121-126 | every document is either counted or a failure |
| Loading.FirstFailingAppend | src/main/java/j/lucene/tutorial/load/impl/LuceneLoadingCollectorImpl.java:124 | a later refusal never replaces the first one |
| Loading.AllAccepted | src/main/java/j/lucene/tutorial/load/impl/LuceneLoadingCollectorImpl.java:121-126 | when the writer accepts all documents, the count is their number and no failure is recorded |
| Loading.CombineLaws | src/main/java/j/lucene/tutorial/load/impl/LuceneLoadingCollectorImpl.java:133-143 | the combiner keeps its first session, and is associative and idempotent |
| LoadingCollectorImpl.AllDocumentsLoaded | src/main/java/j/lucene/tutorial/load/impl/LuceneLoadingCollectorImpl.java:121-160 | documents the writer all accepts are all counted and leave the failure slot empty |
| LoadingCollectorImpl.FirstFailureRecorded | src/main/java/j/lucene/tutorial/load/impl/LuceneLoadingCollectorImpl.java:88-126 | the slot is empty exactly when nothing was refused; otherwise it holds the first refused document with its exception |
| LoadingCollectorImpl.CloseOutcomeReports | src/main/java/j/lucene/tutorial/load/impl/LuceneLoadingCollectorImpl.java:60-82 | preDestroy throws exactly when the writer's close failed; a directory-close failure alone goes unreported, and replaces the writer's exception when both fail |
| LoadingCollectorImpl.LuceneLoadingCollectorImpl.constructor | src/main/java/j/lucene/tutorial/load/impl/LuceneLoadingCollectorImpl.java:38-42 | count 0, no failure, no session |
| LoadingCollectorImpl.LuceneLoadingCollectorImpl.PostConstruct | src/main/java/j/lucene/tutorial/load/impl/LuceneLoadingCollectorImpl.java:44-58 | forces the configuration, opens the session, or throws "Could not open directory location:" with the cause and leaves the session unchanged |
| LoadingCollectorImpl.LuceneLoadingCollectorImpl.Check | src/main/java/j/lucene/tutorial/load/impl/LuceneLoadingCollectorImpl.java:97-101 | throws "Must call 'postConstruct' before using." exactly when no session is set |
| LoadingCollectorImpl.LuceneLoadingCollectorImpl.PreDestroy | src/main/java/j/lucene/tutorial/load/impl/LuceneLoadingCollectorImpl.java:60-82 | the check first; then the session is always dropped, and the result is what CloseOutcome says |
| LoadingCollectorImpl.LuceneLoadingCollectorImpl.FirstFailure | src/main/java/j/lucene/tutorial/load/impl/LuceneLoadingCollectorImpl.java:88-95 | the first refused document with its exception, if any |
| LoadingCollectorImpl.LuceneLoadingCollectorImpl.Supplier | src/main/java/j/lucene/tutorial/load/impl/LuceneLoadingCollectorImpl.java:103-113 | the one shared session, or the check's exception |
| LoadingCollectorImpl.LuceneLoadingCollectorImpl.Accumulate | src/main/java/j/lucene/tutorial/load/impl/LuceneLoadingCollectorImpl.java:115-131 | an accepted document adds one to the count; a refused one is recorded only if the slot is empty; nothing is thrown; the invariant holds |
| LoadingCollectorImpl.LuceneLoadingCollectorImpl.Finish | src/main/java/j/lucene/tutorial/load/impl/LuceneLoadingCollectorImpl.java:145-160 | the number of accepted documents after a commit, or "Could not commit." with the cause |
| LoadingCollectorImpl.LuceneLoadingCollectorImpl.Collect | src/main/java/j/lucene/tutorial/load/impl/LuceneLoadingCollectorImpl.java:103-160 | a stream collected in sequence logs every attempt and returns the count of accepted documents, the commit failure, or the check's exception |
| LoadingCollectorLegacy.LuceneLoadingCollector.constructor | src/main/java/j/lucene/tutorial/load/impl/LuceneLoadingCollector.java:33-37 | count 0, no failure, no session |
| LoadingCollectorLegacy.LuceneLoadingCollector.PostConstruct | src/main/java/j/lucene/tutorial/load/impl/LuceneLoadingCollector.java:39-53 | the same as the newer collector |
| LoadingCollectorLegacy.LuceneLoadingCollector.Check | src/main/java/j/lucene/tutorial/load/impl/LuceneLoadingCollector.java:66-70 | throws exactly when no session is set |
| LoadingCollectorLegacy.LuceneLoadingCollector.PreDestroy | src/main/java/j/lucene/tutorial/load/impl/LuceneLoadingCollector.java:55-64 | the first failing close is thrown as "Could not close index writer and/or directory" and the session is kept; only a clean close drops it |
| LoadingCollectorLegacy.LuceneLoadingCollector.Supplier | src/main/java/j/lucene/tutorial/load/impl/LuceneLoadingCollector.java:72-82 | the shared session, or the check's exception |
| LoadingCollectorLegacy.LuceneLoadingCollector.Accumulate | src/main/java/j/lucene/tutorial/load/impl/LuceneLoadingCollector.java:84-100 | count on success; on failure the document alone goes into the slot if it is empty |
| LoadingCollectorLegacy.LuceneLoadingCollector.Finish | src/main/java/j/lucene/tutorial/load/impl/LuceneLoadingCollector.java:114-129 | the count after a commit, or "Could not commit." |
| LoadingCollectorLegacy.LuceneLoadingCollector.Collect | src/main/java/j/lucene/tutorial/load/impl/LuceneLoadingCollector.java:72-129 | sequential collection logs every attempt and returns the count, the commit failure, or the check's exception |
| Search.Builder.constructor | src/main/java/j/lucene/tutorial/search/SearchResults.java:51-54 | a fresh builder: zero hits, exact, no result list |
| Search.Builder.TotalHits | src/main/java/j/lucene/tutorial/search/SearchResults.java:56-59 | sets only totalHits and returns the same builder |
| Search.Builder.TotalApproximate | src/main/java/j/lucene/tutorial/search/SearchResults.java:61-64 | sets only totalApproximate and returns the same builder |
| Search.Builder.Results | src/main/java/j/lucene/tutorial/search/SearchResults.java:66-69 | sets only the result list and returns the same builder |
| Search.FromBuilder | src/main/java/j/lucene/tutorial/search/SearchResults.java:15-49 | the record's getters return the builder's values; an unset list throws |
| QueryTutorial.StoredValueRoundTrip | src/main/java/j/lucene/tutorial/search/impl/QueryTutorialBase.java:94-111 | every tag maps to the matching object; objects read back unchanged; a stored value comes back unless it is a binary slice that is not its whole backing array |
| QueryTutorial.WithValue | src/main/java/j/lucene/tutorial/search/impl/QueryTutorialBase.java:113-126 | a first value is stored as a scalar; a later one makes or extends the list of values in order; no other name changes |
| QueryTutorial.ValuesNamed | src/main/java/j/lucene/tutorial/search/impl/QueryTutorialBase.java:88-92 | a name has values exactly when the document stores it |
| QueryTutorial.Row | src/main/java/j/lucene/tutorial/search/impl/QueryTutorialBase.java:88-92 | a row has exactly the stored names as keys |
| QueryTutorial.RowShowsAllValues | src/main/java/j/lucene/tutorial/search/impl/QueryTutorialBase.java:88-126 | each stored name shows all its values in storage order: a scalar when there is one value, a list otherwise |
| QueryTutorial.RowStep | src/main/java/j/lucene/tutorial/search/impl/QueryTutorialBase.java:89-91 | adding one stored field to a row is addDisplayableValueToMap |
| QueryTutorial.AddStoredFieldsToMap | src/main/java/j/lucene/tutorial/search/impl/QueryTutorialBase.java:88-92 | the loop over a document's stored fields builds exactly its row |
| QueryTutorial.Rows | src/main/java/j/lucene/tutorial/search/impl/QueryTutorialBase.java:72-77 | one row per hit in ranking order when every hit is readable; otherwise the first unreadable hit's exception |
| QueryTutorial.SearchOutcomeMeaning | src/main/java/j/lucene/tutorial/search/impl/QueryTutorialBase.java:66-86 | the search succeeds exactly when the engine and every fetch do; the result copies the hit count, is approximate exactly when the relation is not EQUAL_TO, and has one row per hit; any failure is the single "Could not execute query." exception |
| QueryTutorial.QueryTutorialBase.constructor | src/main/java/j/lucene/tutorial/search/impl/QueryTutorialBase.java:37-39 | no reader |
| QueryTutorial.QueryTutorialBase.PostConstruct | src/main/java/j/lucene/tutorial/search/impl/QueryTutorialBase.java:41-48 | a reader is opened, or the open failure is thrown with the cause and the reader is unchanged |
| QueryTutorial.QueryTutorialBase.Check | src/main/java/j/lucene/tutorial/search/impl/QueryTutorialBase.java:60-64 | throws exactly when no reader is open |
| QueryTutorial.QueryTutorialBase.PreDestroy | src/main/java/j/lucene/tutorial/search/impl/QueryTutorialBase.java:50-58 | needs an open reader; a clean close forgets it, a failing close throws and keeps it |
| QueryTutorial.QueryTutorialBase.ExecuteSearch | src/main/java/j/lucene/tutorial/search/impl/QueryTutorialBase.java:66-86 | throws the check's exception without a reader; otherwise the outcome SearchOutcomeMeaning characterises, assembled through the Builder |

## Left out

- The zip and file I/O: opening the stream, `getNextEntry` and `closeEntry`.
  These cannot fail in the model. The archive is an in-memory list of
  entries, and only the content read (`readAllBytes`) can fail.
- The charset decoding of entry bytes: content is already a string.
- The file system path: `Archive.fileName` stands for
  `zipFilePath.getFileName()`.
- Regular expressions. `INDEX_PATTERN`, the two synopsis patterns and
  `KEYWORDS_PATTERN` are abstract matchers, so no claim is made about which
  lines they match. `SYNOPSIS_PATTERN1` contains a literal `\\d`.
- The system clock, `ZonedDateTime.now(CLOCK)`. It is a parameter giving
  the reading for the document of each entry position. A zone-aware date
  time is reduced to its `Instant`.
- `Integer.parseInt` accepts ASCII digits and an optional sign only. Java
  also accepts other Unicode digits, which the model rejects.
- Strings are sequences of Unicode scalar values, not of UTF-16 code units.
  Positions and lengths (`lastIndexOf`, `substring`, `length`) therefore
  differ from Java's for supplementary characters. `trim` is unaffected,
  because it drops only characters up to U+0020. No Unicode normalisation
  is done.
- The stream machinery (`Spliterator`, `Stream.collect`). `Collect` in the
  extractor modules and `Collect` in the collector classes stand for
  sequential consumption of the stream.
- Parallel streams and the thread safety of `AtomicLong` and
  `AtomicReference`. The accumulator runs sequentially, and `updateAndGet`
  is "set if empty".
- The `toString` of the location object. The collectors and the query base
  take the location's text as a string.
- The supplier's deferred read of `dlso`. `Supplier` returns the session at
  the time of the call.
- The Lucene calls themselves:
  - the IndexWriter, DirectoryReader and IndexSearcher;
  - codecs and scoring;
  - the analyzer and HTML stripping behind a `TextField`, which is kept as
    its name and source value;
  - `IntField` and the doc-value fields.
  The answers of these calls are parameters.
- Directories left open when the writer or the reader fails to open, and
  an already open session when `postConstruct` is called twice. The model
  has no resources to leak.
- `Transformer.TransformExtractedDocument`: the HashMap's iteration order
  is the `order` parameter. Its preconditions require it to list every key
  of the document exactly once, as a map's iteration does; which order the
  HashMap picks is not modelled.
- Float and double values are kept as their bit patterns, with no IEEE
  arithmetic.
- `Search.FromBuilder`: `Collections.unmodifiableList` is a view that
  aliases the builder's list. The model copies the list's value, so a later
  change to that list does not show in the record.
- The query-builder tutorials (Term, Phrase, MultiPhrase, Prefix, Wildcard,
  Fuzzy, IntegerRange): they only build Lucene queries.
- Merging doc values into result rows: `executeSearch` reads stored fields
  only, and the model follows it.
- The two `LuceneTutorialException` classes (`j.lucene.tutorial` and
  `j.jdyer1.lucenetutorial`) are one `TutorialException` constructor. A
  `catch` by class could tell them apart in Java; the model cannot.
- `IngestDocument` in `IngestDocumentZipProducer` is the same field map as
  `ExtractedDocument`, so the model uses one type for both.
- `QueryTutorial.QueryTutorialBase.ExecuteSearch`: a negative `maxResults`
  is rejected after the engine's answer, as `new ArrayList<>(maxResults)`
  would reject it. The engine's own rejection of such values is part of the
  `search` oracle.
