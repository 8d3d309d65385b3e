/** IngestDocumentZipProducer, the older extractor of the ingest package:
    the same book index and the same lazy iterator over the archive's
    entries, producing IngestDocuments with exactly chapter, book, text,
    add_timestamp and source. */
module IngestZipProducer {
  import opened Wrappers
  import opened Errors
  import opened JavaStrings
  import opened Documents
  import opened ZipArchive

  /** What the iterator holds besides the archive: the book index, the
      archive's file name (the source field) and the clock reading taken for
      the document of each entry position. */
  datatype Extraction = Extraction(index: map<int, string>, source: string, clock: nat -> Instant)

  /** booknameByChapterId.get(id): the name, or null. */
  function BookValue(index: map<int, string>, id: int): Value {
    if id in index then StringValue(index[id]) else NullValue
  }

  /** The fields map of a chapter page. */
  function PageDocument(ctx: Extraction, chapter: int, bookId: int, text: string, stamp: Instant): ExtractedDocument {
    ExtractedDocument(map[
      "chapter" := IntValue(chapter),
      "book" := BookValue(ctx.index, bookId),
      "text" := StringValue(text),
      "add_timestamp" := TimestampValue(stamp),
      "source" := StringValue(ctx.source)])
  }

  /** maybePopulateNext on the entry at the given position: skip entries that
      are not chapter pages; a bad book path name throws; a read failure is
      wrapped and thrown. */
  function PopulateNext(ctx: Extraction, entry: ZipEntry, position: nat): EntryOutcome {
    if !EndsWith(entry.name, PageSuffix) then Skip
    else match ChapterOf(entry.name)
      case None => Skip
      case Some(chapter) =>
        match BookIdOf(entry.name)
        case Failure(e) => Throws(e)
        case Success(bookId) =>
          match entry.content
          case Failure(e) => Throws(Wrap(e))
          case Success(text) => Emit(PageDocument(ctx, chapter, bookId, text, ctx.clock(position)))
  }

  /** The outcome of every entry, by position. */
  function Outcomes(ctx: Extraction, entries: seq<ZipEntry>): seq<EntryOutcome> {
    seq(|entries|, i requires 0 <= i < |entries| => PopulateNext(ctx, entries[i], i))
  }

  /** An entry is skipped exactly when it is not a chapter page. A document
      has exactly the keys chapter, book, text, add_timestamp and source: the
      chapter, the looked-up book (null when the index lacks it), the text
      unchanged, the clock reading and the archive's name. A failure is the
      book id's exception or a wrapped read failure, never a skip. */
  lemma PopulateNextOutcome(ctx: Extraction, entry: ZipEntry, position: nat)
    ensures PopulateNext(ctx, entry, position).Skip? <==> !Qualifies(entry)
    ensures PopulateNext(ctx, entry, position).Emit? ==>
      var d := PopulateNext(ctx, entry, position).doc.content;
      && FromEntry(entry, PopulateNext(ctx, entry, position).doc)
      && BookIdOf(entry.name).Success?
      && d.Keys == {"chapter", "book", "text", "add_timestamp", "source"}
      && d["book"] == BookValue(ctx.index, BookIdOf(entry.name).value)
      && d["add_timestamp"] == TimestampValue(ctx.clock(position))
      && d["source"] == StringValue(ctx.source)
    ensures PopulateNext(ctx, entry, position).Throws? <==>
      Qualifies(entry) && (BookIdOf(entry.name).Failure? || entry.content.Failure?)
    ensures PopulateNext(ctx, entry, position).Throws? ==>
      var e := PopulateNext(ctx, entry, position).error;
      || (BookIdOf(entry.name).Failure? && e == BookIdOf(entry.name).error)
      || (BookIdOf(entry.name).Success? && e == Wrap(entry.content.error))
  {
  }

  /** With no failing entry, the documents come out in archive order, one
      per chapter page, each made from its entry. */
  lemma {:induction false} OnePerQualifyingEntry(ctx: Extraction, entries: seq<ZipEntry>)
    requires FirstFailure(Outcomes(ctx, entries)).None?
    ensures var docs, pages := Emitted(Outcomes(ctx, entries)), Qualifying(entries);
      |docs| == |pages| && forall i :: 0 <= i < |pages| ==> FromEntry(pages[i], docs[i])
    decreases |entries|
  {
    if entries != [] {
      var n := |entries| - 1;
      var os := Outcomes(ctx, entries);
      assert os[..n] == Outcomes(ctx, entries[..n]);
      assert !os[n].Throws?;
      PopulateNextOutcome(ctx, entries[n], n);
      OnePerQualifyingEntry(ctx, entries[..n]);
    }
  }

  // ---------------------------------------------------------------------
  // IngestDocumentIterator
  // ---------------------------------------------------------------------

  class IngestDocumentIterator {
    const ctx: Extraction
    const entries: seq<ZipEntry>
    var next: Option<ExtractedDocument>
    var zis: ZipStream
    var done: bool
    /** The documents next() has returned so far. */
    ghost var handedOut: seq<ExtractedDocument>

    /** How many entries the stream has read. */
    function Position(): nat
      reads this
    {
      match zis
      case Unopened => 0
      case Open(p) => p
      case Closed => |entries|
    }

    function Pending(): seq<ExtractedDocument>
      reads this
    {
      if next.Some? then [next.value] else []
    }

    ghost function AllOutcomes(): seq<EntryOutcome> {
      Outcomes(ctx, entries)
    }

    /** done is set exactly when the stream is closed; the documents of the
        entries read so far are those handed out plus the pending one. */
    ghost predicate Valid()
      reads this
    {
      && (done <==> zis.Closed?)
      && Position() <= |entries|
      && (done ==> next.None?)
      && Emitted(AllOutcomes()[..Position()]) == handedOut + Pending()
    }

    /** The state advance leaves when it starts at the given position with no
        document pending: at the next entry that is not skipped, holding its
        document or having thrown its failure, or done at the end. */
    ghost predicate Advanced(from: nat, r: Outcome<Exception>)
      requires from <= |entries|
      reads this
    {
      var j := NextEvent(AllOutcomes(), from);
      if j == |entries| then r == Pass && done && next.None?
      else if AllOutcomes()[j].Emit? then
        r == Pass && next == Some(AllOutcomes()[j].doc) && zis == Open(j + 1) && !done
      else
        r == Fail(Wrap(AllOutcomes()[j].error)) && next.None? && zis == Open(j + 1) && !done
    }

    constructor(index: map<int, string>, archive: Archive, clock: nat -> Instant)
      ensures Valid()
      ensures ctx == Extraction(index, archive.fileName, clock) && entries == archive.entries
      ensures next.None? && zis == Unopened && !done && handedOut == []
    {
      ctx := Extraction(index, archive.fileName, clock);
      entries := archive.entries;
      next := None;
      zis := Unopened;
      done := false;
      handedOut := [];
    }

    method MaybePopulateNext(entry: ZipEntry, position: nat) returns (r: Outcome<Exception>)
      modifies this
      ensures zis == old(zis) && done == old(done) && handedOut == old(handedOut)
      ensures match PopulateNext(ctx, entry, position)
        case Skip => next == old(next) && r == Pass
        case Emit(d) => next == Some(d) && r == Pass
        case Throws(e) => next == old(next) && r == Fail(e)
    {
      if EndsWith(entry.name, PageSuffix) {
        var chapter := ChapterOf(entry.name);
        if chapter.Some? {
          var bookId := BookIdOf(entry.name);
          if bookId.Failure? {
            return Fail(bookId.error);
          }
          if entry.content.Failure? {
            return Fail(Wrap(entry.content.error));
          }
          next := Some(PageDocument(ctx, chapter.value, bookId.value, entry.content.value, ctx.clock(position)));
        }
      }
      return Pass;
    }

    /** advance(): a no-op when done or when a document is pending; otherwise
        opens the stream if needed and reads entries until one yields a
        document or a failure, closing the stream and setting done at the
        end. */
    method Advance() returns (r: Outcome<Exception>)
      requires Valid()
      modifies this
      ensures Valid() && handedOut == old(handedOut)
      ensures old(done) || old(next.Some?) ==>
        r == Pass && next == old(next) && zis == old(zis) && done == old(done)
      ensures !old(done) && old(next.None?) ==> Advanced(old(Position()), r)
    {
      if done || next.Some? {
        return Pass;
      }
      ghost var start := Position();
      var position := Position();
      zis := Open(position);
      while position < |entries|
        invariant start <= position <= |entries|
        invariant zis == Open(position) && next.None? && !done && handedOut == old(handedOut)
        invariant forall k :: start <= k < position ==> AllOutcomes()[k].Skip?
        invariant Emitted(AllOutcomes()[..position]) == handedOut
      {
        var o := MaybePopulateNext(entries[position], position);
        EventStep(AllOutcomes(), start, position);
        position := position + 1;
        zis := Open(position);
        if o.Fail? {
          return Fail(Wrap(o.error));
        }
        if next.Some? {
          return Pass;
        }
      }
      EmittedAcrossSkips(AllOutcomes(), start, position);
      NextEventStops(AllOutcomes(), start, position);
      zis := Closed;
      done := true;
      return Pass;
    }

    /** hasNext(): advance, then whether a document is pending. A pending
        document is not skipped, and false means every document has been
        handed out. */
    method HasNext() returns (r: Result<bool, Exception>)
      requires Valid()
      modifies this
      ensures Valid() && handedOut == old(handedOut)
      ensures old(next.Some?) ==> r == Success(true) && next == old(next) && zis == old(zis)
      ensures old(done) ==> r == Success(false) && zis == old(zis) && done
      ensures r.Success? ==> (r.value <==> next.Some?)
      ensures r == Success(false) ==> done && handedOut == Emitted(AllOutcomes())
      ensures !old(done) && old(next.None?) ==>
        Advanced(old(Position()), if r.Failure? then Fail(r.error) else Pass)
    {
      var o := Advance();
      if o.Fail? {
        return Failure(o.error);
      }
      if done {
        assert AllOutcomes()[..|entries|] == AllOutcomes();
      }
      return Success(next.Some?);
    }

    /** next(): the pending document (advancing first), cleared from the
        slot; NoSuchElementException when the entries are exhausted. */
    method Next() returns (r: Result<ExtractedDocument, Exception>)
      requires Valid()
      modifies this
      ensures Valid() && next.None?
      ensures r.Success? ==> handedOut == old(handedOut) + [r.value]
      ensures r.Failure? ==> handedOut == old(handedOut)
      ensures old(next.Some?) ==> r == Success(old(next).value) && zis == old(zis)
      ensures old(done) ==> r == Failure(NoSuchElement)
      ensures !old(done) && old(next.None?) ==>
        var j := NextEvent(AllOutcomes(), old(Position()));
        if j == |entries| then r == Failure(NoSuchElement)
        else if AllOutcomes()[j].Emit? then r == Success(AllOutcomes()[j].doc)
        else r == Failure(Wrap(AllOutcomes()[j].error))
    {
      var has := HasNext();
      if has.Failure? {
        return Failure(has.error);
      }
      if !has.value {
        return Failure(NoSuchElement);
      }
      var val := next.value;
      next := None;
      handedOut := handedOut + [val];
      return Success(val);
    }
  }

  /** documents(zipFilePath): the book index is read first, and its failure
      is thrown from the call; the documents then come from a fresh
      iterator. */
  method ProduceDocuments(archive: Archive, clock: nat -> Instant, indexMatcher: string -> Option<IndexCaptures>)
    returns (r: Result<IngestDocumentIterator, Exception>)
    ensures match IndexFrom(indexMatcher, archive.entries, map[])
      case Failure(e) => r == Failure(e)
      case Success(index) =>
        && r.Success? && fresh(r.value) && r.value.Valid()
        && r.value.ctx == Extraction(index, archive.fileName, clock)
        && r.value.entries == archive.entries
        && r.value.Position() == 0 && r.value.next.None? && r.value.handedOut == []
  {
    var index := BookNameIndex(archive, indexMatcher);
    if index.Failure? {
      return Failure(index.error);
    }
    var it := new IngestDocumentIterator(index.value, archive, clock);
    return Success(it);
  }

  /** Consuming the stream: hasNext and next until exhausted. The result is
      every document in entry order, or the first entry failure, wrapped. */
  method Collect(it: IngestDocumentIterator) returns (r: Result<seq<ExtractedDocument>, Exception>)
    requires it.Valid() && it.Position() == 0 && it.next.None? && it.handedOut == []
    modifies it
    ensures r == Drained(it.AllOutcomes())
  {
    ghost var outcomes := it.AllOutcomes();
    var docs: seq<ExtractedDocument> := [];
    while true
      invariant it.Valid() && it.next.None? && it.handedOut == docs
      invariant NoThrowBefore(outcomes, it.Position())
      decreases |it.entries| - it.Position(), if it.done then 0 else 1
    {
      ghost var before := it.Position();
      ghost var wasDone := it.done;
      var has := it.HasNext();
      ghost var j := NextEvent(outcomes, before);
      if has.Failure? {
        FirstFailureIs(outcomes, j);
        return Failure(has.error);
      }
      if !has.value {
        assert it.done;
        NoThrowAtAll(outcomes, it.Position());
        return Success(docs);
      }
      assert !wasDone && j < |outcomes| && outcomes[j].Emit? && it.Position() == j + 1;
      NoThrowPastEvent(outcomes, before, j);
      var d := it.Next();
      docs := docs + [d.value];
    }
  }
}
