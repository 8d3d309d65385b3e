/** DocumentExtractorBibleZipImpl: the book index read up front, then a lazy
    iterator over the archive's entries that turns every chapter page into an
    ExtractedDocument with chapter, book, text, synopsis, keywords,
    add_timestamp and source. */
module BibleZipExtractor {
  import opened Wrappers
  import opened Errors
  import opened JavaStrings
  import opened Documents
  import opened ZipArchive

  /** The four patterns, each as what find() captures on a line, or None
      when it does not match: INDEX_PATTERN (groups 1 and 2),
      SYNOPSIS_PATTERN1, SYNOPSIS_PATTERN2 and KEYWORDS_PATTERN (group 1). */
  datatype Matchers = Matchers(
    index: string -> Option<IndexCaptures>,
    synopsis1: string -> Option<string>,
    synopsis2: string -> Option<string>,
    keywords: string -> Option<string>)

  const KeywordSeparator: string := ", "
  const AudioToken: string := "Audio"

  // ---------------------------------------------------------------------
  // synopsis(), keywords() and the scan of maybeAddSynopsisAndKeywords
  // ---------------------------------------------------------------------

  /** synopsis(fields, line): group 1 of the first pattern if it matches,
      else of the second. */
  function SynopsisOf(m: Matchers, line: string): Option<string> {
    if m.synopsis1(line).Some? then m.synopsis1(line) else m.synopsis2(line)
  }

  /** The keywords list of a captured keywords attribute: split on ", ",
      with a first token of exactly "Audio" removed; reading the first token
      of an empty split is an ArrayIndexOutOfBoundsException. */
  function KeywordTokens(captured: string): Result<seq<string>, Exception> {
    var tokens := JavaSplit(captured, KeywordSeparator);
    if tokens == [] then Failure(IndexOutOfBounds)
    else if tokens[0] == AudioToken then Success(tokens[1..])
    else Success(tokens)
  }

  /** The keywords are the pieces between the separators, in order, the
      leading "Audio" piece and trailing empty pieces left out; the split is
      empty, and keywords() throws, exactly when the attribute is nothing but
      separators. */
  lemma KeywordTokensAreSplitPieces(captured: string)
    ensures var pieces := Split(captured, KeywordSeparator);
      KeywordTokens(captured).Failure? <==> captured != "" && forall i :: 0 <= i < |pieces| ==> pieces[i] == ""
    ensures var pieces := Split(captured, KeywordSeparator);
      match KeywordTokens(captured)
      case Failure(e) => e == IndexOutOfBounds
      case Success(ks) =>
        var skip := if pieces[0] == AudioToken then 1 else 0;
        && skip + |ks| <= |pieces|
        && ks == pieces[skip..skip + |ks|]
        && (forall i :: skip + |ks| <= i < |pieces| ==> pieces[i] == "")
  {
    var pieces := Split(captured, KeywordSeparator);
    var tokens := JavaSplit(captured, KeywordSeparator);
    JoinSplit(captured, KeywordSeparator);
    if |pieces| == 1 {
      assert tokens == pieces && captured == pieces[0];
    } else {
      assert tokens == StripTrailingEmpty(pieces);
      assert captured == pieces[0] + KeywordSeparator + Join(pieces[1..], KeywordSeparator);
      if tokens != [] {
        assert tokens[|tokens| - 1] == pieces[|tokens| - 1];
        assert tokens[0] == pieces[0];
        if tokens[0] == AudioToken {
          assert tokens[1..] == pieces[1..|tokens|];
        }
      }
    }
  }

  /** keywords(fields, line): nothing when the line does not match, else
      the keywords list or the exception building it throws. */
  function KeywordsOf(m: Matchers, line: string): Option<Result<seq<string>, Exception>> {
    match m.keywords(line)
    case None => None
    case Some(captured) => Some(KeywordTokens(captured))
  }

  /** What the scan puts into the fields map. */
  datatype Metadata = Metadata(synopsis: Option<string>, keywords: Option<seq<string>>)

  const NoMetadata: Metadata := Metadata(None, None)

  /** The scan of maybeAddSynopsisAndKeywords from line i on, given what it
      has stored so far and whether the synopsis has been found. */
  function Scan(m: Matchers, lines: seq<string>, i: nat, meta: Metadata, foundSynopsis: bool)
    : Result<Metadata, Exception>
    requires i <= |lines|
    decreases |lines| - i
  {
    if i == |lines| then Success(meta)
    else if !foundSynopsis && SynopsisOf(m, lines[i]).Some? then
      Scan(m, lines, i + 1, meta.(synopsis := SynopsisOf(m, lines[i])), true)
    else match KeywordsOf(m, lines[i])
      case None => Scan(m, lines, i + 1, meta, foundSynopsis)
      case Some(Failure(e)) => Failure(e)
      case Some(Success(ks)) =>
        if foundSynopsis then Success(meta.(keywords := Some(ks)))
        else Scan(m, lines, i + 1, meta.(keywords := Some(ks)), foundSynopsis)
  }

  /** maybeAddSynopsisAndKeywords: one pass over the lines with the two
      flags, returning early once the synopsis is known and a keywords line
      is met. */
  method MaybeAddSynopsisAndKeywords(m: Matchers, lines: seq<string>) returns (r: Result<Metadata, Exception>)
    ensures r == Scan(m, lines, 0, NoMetadata, false)
  {
    var meta := NoMetadata;
    var foundSynopsis := false;
    var foundKeywords := false;
    for i := 0 to |lines|
      invariant Scan(m, lines, 0, NoMetadata, false) == Scan(m, lines, i, meta, foundSynopsis)
    {
      var line := lines[i];
      if !foundSynopsis {
        var synopsis := SynopsisOf(m, line);
        foundSynopsis := synopsis.Some?;
        if foundSynopsis {
          meta := meta.(synopsis := synopsis);
          continue;
        }
      }
      var keywords := KeywordsOf(m, line);
      if keywords.Some? && keywords.value.Failure? {
        return Failure(keywords.value.error);
      }
      foundKeywords := keywords.Some?;
      if foundKeywords {
        meta := meta.(keywords := Some(keywords.value.value));
      }
      if foundKeywords && foundSynopsis {
        return Success(meta);
      }
    }
    return Success(meta);
  }

  /** The first line at or after i that gives a synopsis. */
  function FirstSynopsisFrom(m: Matchers, lines: seq<string>, i: nat): (r: Option<nat>)
    requires i <= |lines|
    ensures r.Some? ==> i <= r.value < |lines| && SynopsisOf(m, lines[r.value]).Some?
    ensures r.Some? ==> forall k :: i <= k < r.value ==> SynopsisOf(m, lines[k]).None?
    ensures r.None? ==> forall k :: i <= k < |lines| ==> SynopsisOf(m, lines[k]).None?
    decreases |lines| - i
  {
    if i == |lines| then None
    else if SynopsisOf(m, lines[i]).Some? then Some(i)
    else FirstSynopsisFrom(m, lines, i + 1)
  }

  /** The first keywords line at or after i. */
  function FirstKeywordsFrom(m: Matchers, lines: seq<string>, i: nat): (r: Option<nat>)
    requires i <= |lines|
    ensures r.Some? ==> i <= r.value < |lines| && KeywordsOf(m, lines[r.value]).Some?
    ensures r.Some? ==> forall k :: i <= k < r.value ==> KeywordsOf(m, lines[k]).None?
    ensures r.None? ==> forall k :: i <= k < |lines| ==> KeywordsOf(m, lines[k]).None?
    decreases |lines| - i
  {
    if i == |lines| then None
    else if KeywordsOf(m, lines[i]).Some? then Some(i)
    else FirstKeywordsFrom(m, lines, i + 1)
  }

  /** The last keywords line in [lo, hi). */
  function LastKeywordsIn(m: Matchers, lines: seq<string>, lo: nat, hi: nat): (r: Option<nat>)
    requires lo <= hi <= |lines|
    ensures r.Some? ==> lo <= r.value < hi && KeywordsOf(m, lines[r.value]).Some?
    ensures r.Some? ==> forall k :: r.value < k < hi ==> KeywordsOf(m, lines[k]).None?
    ensures r.None? ==> forall k :: lo <= k < hi ==> KeywordsOf(m, lines[k]).None?
    decreases hi - lo
  {
    if lo == hi then None
    else match LastKeywordsIn(m, lines, lo + 1, hi)
      case Some(k) => Some(k)
      case None => if KeywordsOf(m, lines[lo]).Some? then Some(lo) else None
  }

  /** The line whose keywords a scan started at line i (before the synopsis
      is found) keeps: the first keywords line after the synopsis line, else
      the last keywords line before it, or the last of all lines when no line
      gives a synopsis. */
  function ChosenKeywordsLine(m: Matchers, lines: seq<string>, i: nat): Option<nat>
    requires i <= |lines|
  {
    match FirstSynopsisFrom(m, lines, i)
    case Some(s) =>
      (match FirstKeywordsFrom(m, lines, s + 1)
       case Some(k) => Some(k)
       case None => LastKeywordsIn(m, lines, i, s))
    case None => LastKeywordsIn(m, lines, i, |lines|)
  }

  /** Once the synopsis is found, the scan stops at the first keywords line
      and keeps its keywords, or runs out of lines with the fields as
      they are. */
  lemma {:induction false} ScanAfterSynopsis(m: Matchers, lines: seq<string>, i: nat, meta: Metadata)
    requires i <= |lines|
    ensures Scan(m, lines, i, meta, true) ==
      match FirstKeywordsFrom(m, lines, i)
      case None => Success(meta)
      case Some(k) =>
        match KeywordsOf(m, lines[k]).value
        case Failure(e) => Failure(e)
        case Success(ks) => Success(meta.(keywords := Some(ks)))
    decreases |lines| - i
  {
    if i < |lines| && KeywordsOf(m, lines[i]).None? {
      ScanAfterSynopsis(m, lines, i + 1, meta);
    }
  }

  /** A successful scan started before the synopsis is found keeps the
      synopsis of the first line either pattern matches, and the keywords of
      the chosen line, which is never that synopsis line. */
  lemma {:induction false} ScanBeforeSynopsis(m: Matchers, lines: seq<string>, i: nat, meta: Metadata)
    requires i <= |lines|
    requires Scan(m, lines, i, meta, false).Success?
    ensures var r := Scan(m, lines, i, meta, false).value;
      r.synopsis == match FirstSynopsisFrom(m, lines, i)
                    case Some(s) => SynopsisOf(m, lines[s])
                    case None => meta.synopsis
    ensures var r := Scan(m, lines, i, meta, false).value;
      match ChosenKeywordsLine(m, lines, i)
      case Some(k) =>
        && r.keywords.Some? && KeywordsOf(m, lines[k]) == Some(Success(r.keywords.value))
        && FirstSynopsisFrom(m, lines, i) != Some(k)
      case None => r.keywords == meta.keywords
    decreases |lines| - i
  {
    if i < |lines| {
      if SynopsisOf(m, lines[i]).Some? {
        ScanAfterSynopsis(m, lines, i + 1, meta.(synopsis := SynopsisOf(m, lines[i])));
      } else if KeywordsOf(m, lines[i]).None? {
        ScanBeforeSynopsis(m, lines, i + 1, meta);
      } else if KeywordsOf(m, lines[i]).value.Success? {
        ScanBeforeSynopsis(m, lines, i + 1, meta.(keywords := Some(KeywordsOf(m, lines[i]).value.value)));
      }
    }
  }

  /** The scan throws only what building a keywords list throws, and never
      when every keywords line has a non-empty split. */
  lemma {:induction false} ScanFailsOnlyOnKeywords(m: Matchers, lines: seq<string>, i: nat, meta: Metadata,
                                                   foundSynopsis: bool)
    requires i <= |lines|
    ensures Scan(m, lines, i, meta, foundSynopsis).Failure? ==>
      Scan(m, lines, i, meta, foundSynopsis).error == IndexOutOfBounds
    ensures (forall k :: i <= k < |lines| && KeywordsOf(m, lines[k]).Some? ==> KeywordsOf(m, lines[k]).value.Success?) ==>
      Scan(m, lines, i, meta, foundSynopsis).Success?
    decreases |lines| - i
  {
    if i < |lines| {
      var keywords := KeywordsOf(m, lines[i]);
      if !foundSynopsis && SynopsisOf(m, lines[i]).Some? {
        ScanFailsOnlyOnKeywords(m, lines, i + 1, meta.(synopsis := SynopsisOf(m, lines[i])), true);
      } else if keywords.None? {
        ScanFailsOnlyOnKeywords(m, lines, i + 1, meta, foundSynopsis);
      } else if keywords.value.Success? {
        ScanFailsOnlyOnKeywords(m, lines, i + 1, meta.(keywords := Some(keywords.value.value)), foundSynopsis);
      } else {
        KeywordTokensAreSplitPieces(m.keywords(lines[i]).value);
      }
    }
  }

  // ---------------------------------------------------------------------
  // maybePopulateNext
  // ---------------------------------------------------------------------

  /** What the iterator holds besides the archive: the book index, the
      archive's file name (the source field), the clock reading taken for the
      document of each entry position, and the patterns. */
  datatype Extraction = Extraction(index: map<int, string>, source: string, clock: nat -> Instant, matchers: Matchers)

  /** booknameByChapterId.get(id): the name, or null. */
  function BookValue(index: map<int, string>, id: int): Value {
    if id in index then StringValue(index[id]) else NullValue
  }

  /** The fields map of a chapter page. */
  function PageDocument(ctx: Extraction, chapter: int, bookId: int, text: string, meta: Metadata, stamp: Instant)
    : ExtractedDocument
  {
    var base := map[
      "chapter" := IntValue(chapter),
      "book" := BookValue(ctx.index, bookId),
      "text" := StringValue(text),
      "add_timestamp" := TimestampValue(stamp),
      "source" := StringValue(ctx.source)];
    var withSynopsis := if meta.synopsis.Some? then base["synopsis" := StringValue(meta.synopsis.value)] else base;
    ExtractedDocument(
      if meta.keywords.Some? then withSynopsis["keywords" := StringArrayValue(meta.keywords.value)] else withSynopsis)
  }

  /** maybePopulateNext on the entry at the given position: skip entries that
      are not chapter pages; a bad book path name throws; a read or keywords
      failure is wrapped and thrown. */
  function PopulateNext(ctx: Extraction, entry: ZipEntry, position: nat): EntryOutcome {
    if !EndsWith(entry.name, PageSuffix) then Skip
    else match ChapterOf(entry.name)
      case None => Skip
      case Some(chapter) =>
        match BookIdOf(entry.name)
        case Failure(e) => Throws(e)
        case Success(bookId) =>
          match entry.content
          case Failure(e) => Throws(Wrap(e))
          case Success(text) =>
            match Scan(ctx.matchers, JavaSplit(text, Newline), 0, NoMetadata, false)
            case Failure(e) => Throws(Wrap(e))
            case Success(meta) => Emit(PageDocument(ctx, chapter, bookId, text, meta, ctx.clock(position)))
  }

  /** The outcome of every entry, by position. */
  function Outcomes(ctx: Extraction, entries: seq<ZipEntry>): seq<EntryOutcome> {
    seq(|entries|, i requires 0 <= i < |entries| => PopulateNext(ctx, entries[i], i))
  }

  /** An entry is skipped exactly when it is not a chapter page. A document
      carries the chapter, the looked-up book (null when the index lacks
      it), the text unchanged, the clock reading and the archive's name, plus
      synopsis and keywords exactly as the scan found them. A failure is the
      book id's exception, or a wrapped read or keywords failure. */
  lemma PopulateNextOutcome(ctx: Extraction, entry: ZipEntry, position: nat)
    ensures PopulateNext(ctx, entry, position).Skip? <==> !Qualifies(entry)
    ensures PopulateNext(ctx, entry, position).Emit? ==>
      var d := PopulateNext(ctx, entry, position).doc.content;
      && FromEntry(entry, PopulateNext(ctx, entry, position).doc)
      && BookIdOf(entry.name).Success?
      && d["book"] == BookValue(ctx.index, BookIdOf(entry.name).value)
      && d["add_timestamp"] == TimestampValue(ctx.clock(position))
      && d["source"] == StringValue(ctx.source)
      && {"chapter", "book", "text", "add_timestamp", "source"} <= d.Keys
      && d.Keys <= {"chapter", "book", "text", "add_timestamp", "source", "synopsis", "keywords"}
      && var meta := Scan(ctx.matchers, JavaSplit(entry.content.value, Newline), 0, NoMetadata, false).value;
      && ("synopsis" in d <==> meta.synopsis.Some?)
      && (meta.synopsis.Some? ==> d["synopsis"] == StringValue(meta.synopsis.value))
      && ("keywords" in d <==> meta.keywords.Some?)
      && (meta.keywords.Some? ==> d["keywords"] == StringArrayValue(meta.keywords.value))
    ensures PopulateNext(ctx, entry, position).Throws? ==>
      && Qualifies(entry)
      && var e := PopulateNext(ctx, entry, position).error;
      || (BookIdOf(entry.name).Failure? && e == BookIdOf(entry.name).error)
      || (entry.content.Failure? && e == Wrap(entry.content.error))
      || e == Wrap(IndexOutOfBounds)
  {
    var o := PopulateNext(ctx, entry, position);
    if Qualifies(entry) {
      var chapter := ChapterOf(entry.name).value;
      match BookIdOf(entry.name)
      case Failure(e) =>
        assert o == Throws(e);
      case Success(bookId) =>
        match entry.content
        case Failure(e) =>
          assert o == Throws(Wrap(e));
        case Success(text) =>
          var lines := JavaSplit(text, Newline);
          ScanFailsOnlyOnKeywords(ctx.matchers, lines, 0, NoMetadata, false);
          match Scan(ctx.matchers, lines, 0, NoMetadata, false)
          case Failure(e) =>
            assert o == Throws(Wrap(e));
          case Success(meta) =>
            assert o == Emit(PageDocument(ctx, chapter, bookId, text, meta, ctx.clock(position)));
            PageDocumentFields(ctx, chapter, bookId, text, meta, ctx.clock(position));
    } else {
      assert o == Skip;
    }
  }

  /** A chapter page's fields: the five fixed ones, plus synopsis and
      keywords exactly when the scan found them. */
  lemma PageDocumentFields(ctx: Extraction, chapter: int, bookId: int, text: string, meta: Metadata, stamp: Instant)
    ensures var d := PageDocument(ctx, chapter, bookId, text, meta, stamp).content;
      && {"chapter", "book", "text", "add_timestamp", "source"} <= d.Keys
      && d.Keys <= {"chapter", "book", "text", "add_timestamp", "source", "synopsis", "keywords"}
      && d["chapter"] == IntValue(chapter)
      && d["book"] == BookValue(ctx.index, bookId)
      && d["text"] == StringValue(text)
      && d["add_timestamp"] == TimestampValue(stamp)
      && d["source"] == StringValue(ctx.source)
      && ("synopsis" in d <==> meta.synopsis.Some?)
      && (meta.synopsis.Some? ==> d["synopsis"] == StringValue(meta.synopsis.value))
      && ("keywords" in d <==> meta.keywords.Some?)
      && (meta.keywords.Some? ==> d["keywords"] == StringArrayValue(meta.keywords.value))
  {
  }

  /** With no failing entry, the documents come out in archive order, one
      per chapter page, each made from its entry. */
  lemma {:induction false} OnePerQualifyingEntry(ctx: Extraction, entries: seq<ZipEntry>)
    requires FirstFailure(Outcomes(ctx, entries)).None?
    ensures var docs, pages := Emitted(Outcomes(ctx, entries)), Qualifying(entries);
      |docs| == |pages| && forall i :: 0 <= i < |pages| ==> FromEntry(pages[i], docs[i])
    decreases |entries|
  {
    if entries != [] {
      var n := |entries| - 1;
      var os := Outcomes(ctx, entries);
      assert os[..n] == Outcomes(ctx, entries[..n]);
      assert !os[n].Throws?;
      PopulateNextOutcome(ctx, entries[n], n);
      OnePerQualifyingEntry(ctx, entries[..n]);
    }
  }

  // ---------------------------------------------------------------------
  // IngestDocumentIterator
  // ---------------------------------------------------------------------

  class IngestDocumentIterator {
    const ctx: Extraction
    const entries: seq<ZipEntry>
    var next: Option<ExtractedDocument>
    var zis: ZipStream
    var done: bool
    /** The documents next() has returned so far. */
    ghost var handedOut: seq<ExtractedDocument>

    /** How many entries the stream has read. */
    function Position(): nat
      reads this
    {
      match zis
      case Unopened => 0
      case Open(p) => p
      case Closed => |entries|
    }

    function Pending(): seq<ExtractedDocument>
      reads this
    {
      if next.Some? then [next.value] else []
    }

    ghost function AllOutcomes(): seq<EntryOutcome> {
      Outcomes(ctx, entries)
    }

    /** done is set exactly when the stream is closed; the documents of the
        entries read so far are those handed out plus the pending one. */
    ghost predicate Valid()
      reads this
    {
      && (done <==> zis.Closed?)
      && Position() <= |entries|
      && (done ==> next.None?)
      && Emitted(AllOutcomes()[..Position()]) == handedOut + Pending()
    }

    /** The state advance leaves when it starts at the given position with no
        document pending: at the next entry that is not skipped, holding its
        document or having thrown its failure, or done at the end. */
    ghost predicate Advanced(from: nat, r: Outcome<Exception>)
      requires from <= |entries|
      reads this
    {
      var j := NextEvent(AllOutcomes(), from);
      if j == |entries| then r == Pass && done && next.None?
      else if AllOutcomes()[j].Emit? then
        r == Pass && next == Some(AllOutcomes()[j].doc) && zis == Open(j + 1) && !done
      else
        r == Fail(Wrap(AllOutcomes()[j].error)) && next.None? && zis == Open(j + 1) && !done
    }

    constructor(index: map<int, string>, archive: Archive, clock: nat -> Instant, matchers: Matchers)
      ensures Valid()
      ensures ctx == Extraction(index, archive.fileName, clock, matchers) && entries == archive.entries
      ensures next.None? && zis == Unopened && !done && handedOut == []
    {
      ctx := Extraction(index, archive.fileName, clock, matchers);
      entries := archive.entries;
      next := None;
      zis := Unopened;
      done := false;
      handedOut := [];
    }

    method MaybePopulateNext(entry: ZipEntry, position: nat) returns (r: Outcome<Exception>)
      modifies this
      ensures zis == old(zis) && done == old(done) && handedOut == old(handedOut)
      ensures match PopulateNext(ctx, entry, position)
        case Skip => next == old(next) && r == Pass
        case Emit(d) => next == Some(d) && r == Pass
        case Throws(e) => next == old(next) && r == Fail(e)
    {
      if EndsWith(entry.name, PageSuffix) {
        var chapter := ChapterOf(entry.name);
        if chapter.Some? {
          var bookId := BookIdOf(entry.name);
          if bookId.Failure? {
            return Fail(bookId.error);
          }
          if entry.content.Failure? {
            return Fail(Wrap(entry.content.error));
          }
          var text := entry.content.value;
          var meta := MaybeAddSynopsisAndKeywords(ctx.matchers, JavaSplit(text, Newline));
          if meta.Failure? {
            return Fail(Wrap(meta.error));
          }
          next := Some(PageDocument(ctx, chapter.value, bookId.value, text, meta.value, ctx.clock(position)));
        }
      }
      return Pass;
    }

    /** advance(): a no-op when done or when a document is pending; otherwise
        opens the stream if needed and reads entries until one yields a
        document or a failure, closing the stream and setting done at the
        end. */
    method Advance() returns (r: Outcome<Exception>)
      requires Valid()
      modifies this
      ensures Valid() && handedOut == old(handedOut)
      ensures old(done) || old(next.Some?) ==>
        r == Pass && next == old(next) && zis == old(zis) && done == old(done)
      ensures !old(done) && old(next.None?) ==> Advanced(old(Position()), r)
    {
      if done || next.Some? {
        return Pass;
      }
      ghost var start := Position();
      var position := Position();
      zis := Open(position);
      while position < |entries|
        invariant start <= position <= |entries|
        invariant zis == Open(position) && next.None? && !done && handedOut == old(handedOut)
        invariant forall k :: start <= k < position ==> AllOutcomes()[k].Skip?
        invariant Emitted(AllOutcomes()[..position]) == handedOut
      {
        var o := MaybePopulateNext(entries[position], position);
        EventStep(AllOutcomes(), start, position);
        position := position + 1;
        zis := Open(position);
        if o.Fail? {
          return Fail(Wrap(o.error));
        }
        if next.Some? {
          return Pass;
        }
      }
      EmittedAcrossSkips(AllOutcomes(), start, position);
      NextEventStops(AllOutcomes(), start, position);
      zis := Closed;
      done := true;
      return Pass;
    }

    /** hasNext(): advance, then whether a document is pending. A pending
        document is not skipped, and false means every document has been
        handed out. */
    method HasNext() returns (r: Result<bool, Exception>)
      requires Valid()
      modifies this
      ensures Valid() && handedOut == old(handedOut)
      ensures old(next.Some?) ==> r == Success(true) && next == old(next) && zis == old(zis)
      ensures old(done) ==> r == Success(false) && zis == old(zis) && done
      ensures r.Success? ==> (r.value <==> next.Some?)
      ensures r == Success(false) ==> done && handedOut == Emitted(AllOutcomes())
      ensures !old(done) && old(next.None?) ==>
        Advanced(old(Position()), if r.Failure? then Fail(r.error) else Pass)
    {
      var o := Advance();
      if o.Fail? {
        return Failure(o.error);
      }
      if done {
        assert AllOutcomes()[..|entries|] == AllOutcomes();
      }
      return Success(next.Some?);
    }

    /** next(): the pending document (advancing first), cleared from the
        slot; NoSuchElementException when the entries are exhausted. */
    method Next() returns (r: Result<ExtractedDocument, Exception>)
      requires Valid()
      modifies this
      ensures Valid() && next.None?
      ensures r.Success? ==> handedOut == old(handedOut) + [r.value]
      ensures r.Failure? ==> handedOut == old(handedOut)
      ensures old(next.Some?) ==> r == Success(old(next).value) && zis == old(zis)
      ensures old(done) ==> r == Failure(NoSuchElement)
      ensures !old(done) && old(next.None?) ==>
        var j := NextEvent(AllOutcomes(), old(Position()));
        if j == |entries| then r == Failure(NoSuchElement)
        else if AllOutcomes()[j].Emit? then r == Success(AllOutcomes()[j].doc)
        else r == Failure(Wrap(AllOutcomes()[j].error))
    {
      var has := HasNext();
      if has.Failure? {
        return Failure(has.error);
      }
      if !has.value {
        return Failure(NoSuchElement);
      }
      var val := next.value;
      next := None;
      handedOut := handedOut + [val];
      return Success(val);
    }
  }

  /** documentsFromFilePath: the book index is read first, and its failure
      is thrown from the call; the documents then come from a fresh
      iterator. */
  method DocumentsFromFilePath(archive: Archive, clock: nat -> Instant, matchers: Matchers)
    returns (r: Result<IngestDocumentIterator, Exception>)
    ensures match IndexFrom(matchers.index, archive.entries, map[])
      case Failure(e) => r == Failure(e)
      case Success(index) =>
        && r.Success? && fresh(r.value) && r.value.Valid()
        && r.value.ctx == Extraction(index, archive.fileName, clock, matchers)
        && r.value.entries == archive.entries
        && r.value.Position() == 0 && r.value.next.None? && r.value.handedOut == []
  {
    var index := BookNameIndex(archive, matchers.index);
    if index.Failure? {
      return Failure(index.error);
    }
    var it := new IngestDocumentIterator(index.value, archive, clock, matchers);
    return Success(it);
  }

  /** Consuming the stream: hasNext and next until exhausted. The result is
      every document in entry order, or the first entry failure, wrapped. */
  method Collect(it: IngestDocumentIterator) returns (r: Result<seq<ExtractedDocument>, Exception>)
    requires it.Valid() && it.Position() == 0 && it.next.None? && it.handedOut == []
    modifies it
    ensures r == Drained(it.AllOutcomes())
  {
    ghost var outcomes := it.AllOutcomes();
    var docs: seq<ExtractedDocument> := [];
    while true
      invariant it.Valid() && it.next.None? && it.handedOut == docs
      invariant NoThrowBefore(outcomes, it.Position())
      decreases |it.entries| - it.Position(), if it.done then 0 else 1
    {
      ghost var before := it.Position();
      ghost var wasDone := it.done;
      var has := it.HasNext();
      ghost var j := NextEvent(outcomes, before);
      if has.Failure? {
        FirstFailureIs(outcomes, j);
        return Failure(has.error);
      }
      if !has.value {
        assert it.done;
        NoThrowAtAll(outcomes, it.Position());
        return Success(docs);
      }
      assert !wasDone && j < |outcomes| && outcomes[j].Emit? && it.Position() == j + 1;
      NoThrowPastEvent(outcomes, before, j);
      var d := it.Next();
      docs := docs + [d.value];
    }
  }
}
