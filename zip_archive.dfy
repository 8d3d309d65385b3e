/** What both archive extractors share: the archive as a sequence of zip
    entries, the book-name index read from every entry whose name ends in
    "index.htm" (bookNameIndex, written identically in DocumentExtractorBibleZipImpl and in
    the older IngestDocumentZipProducer), the chapter and book id taken from an
    entry's path, and the per-entry outcome that their iterators step
    through. */
module ZipArchive {
  import opened Wrappers
  import opened Errors
  import opened JavaStrings
  import opened Documents

  /** One zip entry: its name, and what reading its bytes as text gives
      (the text, or the exception the read throws). */
  datatype ZipEntry = ZipEntry(name: string, content: Result<string, Exception>)

  /** The archive: the file name of its path and its entries in stream
      order. */
  datatype Archive = Archive(fileName: string, entries: seq<ZipEntry>)

  /** What INDEX_PATTERN captures from one line of index.htm: group 1 (the
      book id) and group 2 (the book name). */
  datatype IndexCaptures = IndexCaptures(id: string, name: string)

  const IndexSuffix: string := "index.htm"
  const PageSuffix: string := ".htm"
  const Newline: string := "\n"

  // ---------------------------------------------------------------------
  // bookNameIndex
  // ---------------------------------------------------------------------

  /** The map after the lines of one index entry: a matching line maps its
      parsed id to its trimmed name, an id that does not parse throws
      NumberFormatException (wrapped), other lines are skipped. */
  function AddIndexLines(matcher: string -> Option<IndexCaptures>, lines: seq<string>, acc: map<int, string>)
    : Result<map<int, string>, Exception>
    decreases |lines|
  {
    if lines == [] then Success(acc)
    else match matcher(lines[0])
      case None => AddIndexLines(matcher, lines[1..], acc)
      case Some(c) =>
        match ParseInt(c.id)
        case None => Failure(Wrap(NumberFormat(c.id)))
        case Some(id) => AddIndexLines(matcher, lines[1..], acc[id := Trim(c.name)])
  }

  /** The map after the remaining entries: only entries whose name ends in
      "index.htm" are read; a read failure is wrapped and thrown. */
  function IndexFrom(matcher: string -> Option<IndexCaptures>, entries: seq<ZipEntry>, acc: map<int, string>)
    : Result<map<int, string>, Exception>
    decreases |entries|
  {
    if entries == [] then Success(acc)
    else if !EndsWith(entries[0].name, IndexSuffix) then IndexFrom(matcher, entries[1..], acc)
    else match entries[0].content
      case Failure(e) => Failure(Wrap(e))
      case Success(text) =>
        match AddIndexLines(matcher, JavaSplit(text, Newline), acc)
        case Failure(e) => Failure(e)
        case Success(next) => IndexFrom(matcher, entries[1..], next)
  }

  /** bookNameIndex: one pass over the archive, one inner pass over the lines
      of every index entry, filling the map in place. */
  method BookNameIndex(archive: Archive, matcher: string -> Option<IndexCaptures>)
    returns (r: Result<map<int, string>, Exception>)
    ensures r == IndexFrom(matcher, archive.entries, map[])
  {
    var entries := archive.entries;
    var index: map<int, string> := map[];
    var i := 0;
    while i < |entries|
      invariant 0 <= i <= |entries|
      invariant IndexFrom(matcher, entries, map[]) == IndexFrom(matcher, entries[i..], index)
    {
      var entry := entries[i];
      assert entries[i..][1..] == entries[i + 1..];
      if EndsWith(entry.name, IndexSuffix) {
        if entry.content.Failure? {
          return Failure(Wrap(entry.content.error));
        }
        var lines := JavaSplit(entry.content.value, Newline);
        ghost var before := index;
        var j := 0;
        while j < |lines|
          invariant 0 <= j <= |lines|
          invariant AddIndexLines(matcher, lines, before) == AddIndexLines(matcher, lines[j..], index)
        {
          assert lines[j..][1..] == lines[j + 1..];
          var m := matcher(lines[j]);
          if m.Some? {
            var id := ParseInt(m.value.id);
            if id.None? {
              return Failure(Wrap(NumberFormat(m.value.id)));
            }
            index := index[id.value := Trim(m.value.name)];
          }
          j := j + 1;
        }
      }
      i := i + 1;
    }
    return Success(index);
  }

  /** The line defines the book id: it matches and its id parses to id. */
  predicate Defines(matcher: string -> Option<IndexCaptures>, line: string, id: int) {
    matcher(line).Some? && ParseInt(matcher(line).value.id) == Some(id)
  }

  /** The position of the last line that defines id. */
  function LastDefinition(matcher: string -> Option<IndexCaptures>, lines: seq<string>, id: int): (r: Option<nat>)
    ensures r.Some? ==> r.value < |lines| && Defines(matcher, lines[r.value], id)
    ensures r.Some? ==> forall k :: r.value < k < |lines| ==> !Defines(matcher, lines[k], id)
    ensures r.None? ==> forall k :: 0 <= k < |lines| ==> !Defines(matcher, lines[k], id)
    decreases |lines|
  {
    if lines == [] then None
    else match LastDefinition(matcher, lines[1..], id)
      case Some(n) => Some(n + 1)
      case None => if Defines(matcher, lines[0], id) then Some(0) else None
  }

  /** The lines of every readable index entry, in archive order. */
  function IndexLines(entries: seq<ZipEntry>): seq<string>
    decreases |entries|
  {
    if entries == [] then []
    else if EndsWith(entries[0].name, IndexSuffix) && entries[0].content.Success? then
      JavaSplit(entries[0].content.value, Newline) + IndexLines(entries[1..])
    else IndexLines(entries[1..])
  }

  /** Reading two runs of lines one after the other is reading their
      concatenation. */
  lemma {:induction false} AddIndexLinesAppend(matcher: string -> Option<IndexCaptures>, a: seq<string>, b: seq<string>,
                                               acc: map<int, string>)
    ensures AddIndexLines(matcher, a + b, acc) ==
      match AddIndexLines(matcher, a, acc)
      case Failure(e) => Failure(e)
      case Success(m) => AddIndexLines(matcher, b, m)
    decreases |a|
  {
    if a == [] {
      assert a + b == b;
    } else {
      assert (a + b)[1..] == a[1..] + b;
      match matcher(a[0])
      case None => AddIndexLinesAppend(matcher, a[1..], b, acc);
      case Some(c) =>
        if ParseInt(c.id).Some? {
          AddIndexLinesAppend(matcher, a[1..], b, acc[ParseInt(c.id).value := Trim(c.name)]);
        }
    }
  }

  /** When bookNameIndex succeeds, it has read exactly the lines of the index
      entries, one after the other. */
  lemma {:induction false} IndexFromReadsIndexLines(matcher: string -> Option<IndexCaptures>, entries: seq<ZipEntry>,
                                                    acc: map<int, string>)
    requires IndexFrom(matcher, entries, acc).Success?
    ensures IndexFrom(matcher, entries, acc) == AddIndexLines(matcher, IndexLines(entries), acc)
    decreases |entries|
  {
    if entries != [] {
      var rest := entries[1..];
      if !EndsWith(entries[0].name, IndexSuffix) {
        assert IndexFrom(matcher, entries, acc) == IndexFrom(matcher, rest, acc);
        IndexFromReadsIndexLines(matcher, rest, acc);
      } else {
        var lines := JavaSplit(entries[0].content.value, Newline);
        var next := AddIndexLines(matcher, lines, acc);
        assert IndexFrom(matcher, entries, acc) == IndexFrom(matcher, rest, next.value);
        assert IndexLines(entries) == lines + IndexLines(rest);
        AddIndexLinesAppend(matcher, lines, IndexLines(rest), acc);
        IndexFromReadsIndexLines(matcher, rest, next.value);
      }
    }
  }

  /** Within the lines read, the last definition of a book id wins; an id
      no line defines keeps what the map held before. */
  lemma {:induction false} AddIndexLinesLastWins(matcher: string -> Option<IndexCaptures>, lines: seq<string>,
                                                 acc: map<int, string>, id: int)
    requires AddIndexLines(matcher, lines, acc).Success?
    ensures var r := AddIndexLines(matcher, lines, acc).value;
      match LastDefinition(matcher, lines, id)
      case Some(n) => id in r && r[id] == Trim(matcher(lines[n]).value.name)
      case None => (id in r <==> id in acc) && (id in acc ==> r[id] == acc[id])
    decreases |lines|
  {
    if lines != [] {
      var rest := lines[1..];
      var c := matcher(lines[0]);
      var next := if c.Some? then acc[ParseInt(c.value.id).value := Trim(c.value.name)] else acc;
      assert AddIndexLines(matcher, lines, acc) == AddIndexLines(matcher, rest, next);
      AddIndexLinesLastWins(matcher, rest, next, id);
      var later := LastDefinition(matcher, rest, id);
      if later.Some? {
        assert rest[later.value] == lines[later.value + 1];
      } else {
        assert Defines(matcher, lines[0], id) ==> next[id] == Trim(c.value.name);
        assert !Defines(matcher, lines[0], id) ==> (id in next <==> id in acc) && (id in acc ==> next[id] == acc[id]);
      }
    }
  }

  /** bookNameIndex, when it succeeds, maps a book id exactly when some
      line of an index entry defines it, and maps it to the trimmed name on
      the last such line. */
  lemma BookNameIndexLastWins(matcher: string -> Option<IndexCaptures>, entries: seq<ZipEntry>, id: int)
    requires IndexFrom(matcher, entries, map[]).Success?
    ensures var r, lines := IndexFrom(matcher, entries, map[]).value, IndexLines(entries);
      match LastDefinition(matcher, lines, id)
      case Some(n) => id in r && r[id] == Trim(matcher(lines[n]).value.name)
      case None => id !in r
  {
    IndexFromReadsIndexLines(matcher, entries, map[]);
    AddIndexLinesLastWins(matcher, IndexLines(entries), map[], id);
  }

  // ---------------------------------------------------------------------
  // chapter() and the book id of a page entry
  // ---------------------------------------------------------------------

  /** chapter(entry) for an entry whose name ends in ".htm": the file name up
      to its last '.', parsed as an int; a stem that does not parse gives
      null (None). */
  function ChapterOf(name: string): Option<int>
    requires EndsWith(name, PageSuffix)
  {
    HtmFileName(name);
    var fileName := FileName(name).value;
    ParseInt(fileName[..LastIndexOf(fileName, '.')])
  }

  /** Integer.parseInt(Paths.get(name).getName(1).toString()): the book id
      from the second path name, or the IllegalArgumentException (no second
      name) or NumberFormatException it throws. */
  function BookIdOf(name: string): Result<int, Exception> {
    match GetName(name, 1)
    case None => Failure(IllegalArgument)
    case Some(segment) =>
      match ParseInt(segment)
      case None => Failure(NumberFormat(segment))
      case Some(id) => Success(id)
  }

  /** An entry the iterators turn into a document: a page name whose stem
      is a number. */
  predicate Qualifies(e: ZipEntry) {
    EndsWith(e.name, PageSuffix) && ChapterOf(e.name).Some?
  }

  /** The entries that qualify, in archive order. */
  function Qualifying(entries: seq<ZipEntry>): (q: seq<ZipEntry>)
    ensures forall i :: 0 <= i < |q| ==> Qualifies(q[i])
    decreases |entries|
  {
    if entries == [] then []
    else
      var last := entries[|entries| - 1];
      Qualifying(entries[..|entries| - 1]) + (if Qualifies(last) then [last] else [])
  }

  lemma {:induction false} LastIndexOfAfter(a: string, c: char, b: string)
    requires c !in b
    ensures LastIndexOf(a + [c] + b, c) == |a|
    decreases |b|
  {
    if b != [] {
      var s := a + [c] + b;
      assert s[..|s| - 1] == a + [c] + b[..|b| - 1];
      LastIndexOfAfter(a, c, b[..|b| - 1]);
    }
  }

  lemma NumeralChars(n: int)
    ensures '/' !in IntToString(n) && '.' !in IntToString(n)
  {
    var numeral := IntToString(n);
    forall i | 0 <= i < |numeral| ensures numeral[i] == '-' || IsDigit(numeral[i]) {
      if n < 0 {
        assert numeral == "-" + NatToDigits(-n);
        if i > 0 {
          assert numeral[i] == NatToDigits(-n)[i - 1];
        }
      }
    }
  }

  /** The file name of dir/f, for a non-empty f without a slash, is f. */
  lemma FileNameOfChild(dir: string, f: string)
    requires f != [] && '/' !in f
    ensures FileName(dir + "/" + f) == Some(f)
  {
    var name := dir + "/" + f;
    assert name == dir + ['/'] + f;
    LastIndexOfAfter(dir, '/', f);
    assert name[|dir| + 1..] == f;
  }

  /** A page entry named with an int's decimal numeral in some directory has
      that int as its chapter. */
  lemma ChapterOfNumeral(dir: string, chapter: int)
    requires MinInt <= chapter <= MaxInt
    ensures EndsWith(dir + "/" + IntToString(chapter) + PageSuffix, PageSuffix)
    ensures ChapterOf(dir + "/" + IntToString(chapter) + PageSuffix) == Some(chapter)
  {
    var numeral := IntToString(chapter);
    var fileName := numeral + PageSuffix;
    var name := dir + "/" + fileName;
    assert name == dir + "/" + numeral + PageSuffix;
    assert name[|name| - 4..] == PageSuffix;
    NumeralChars(chapter);
    assert '/' !in fileName;
    FileNameOfChild(dir, fileName);
    assert fileName == numeral + ['.'] + "htm";
    LastIndexOfAfter(numeral, '.', "htm");
    assert fileName[..|numeral|] == numeral;
    ParseIntToString(chapter);
  }

  // ---------------------------------------------------------------------
  // Per-entry outcomes, as the iterators see them
  // ---------------------------------------------------------------------

  /** The document was made from the entry: the entry qualifies, and the
      document's chapter is the entry's chapter and its text the entry's
      content, unchanged. */
  predicate FromEntry(e: ZipEntry, d: ExtractedDocument) {
    && Qualifies(e)
    && e.content.Success?
    && "chapter" in d.content && d.content["chapter"] == IntValue(ChapterOf(e.name).value)
    && "text" in d.content && d.content["text"] == StringValue(e.content.value)
  }

  /** The iterator's zip stream: not opened yet, open after some number of
      entries, or closed once the entries ran out. */
  datatype ZipStream = Unopened | Open(position: nat) | Closed

  /** What maybePopulateNext does with one entry: nothing, set the pending
      document, or throw. */
  datatype EntryOutcome = Skip | Emit(doc: ExtractedDocument) | Throws(error: Exception)

  /** The documents among the outcomes, in order. */
  function Emitted(outcomes: seq<EntryOutcome>): seq<ExtractedDocument>
    decreases |outcomes|
  {
    if outcomes == [] then []
    else
      var last := outcomes[|outcomes| - 1];
      Emitted(outcomes[..|outcomes| - 1]) + (if last.Emit? then [last.doc] else [])
  }

  /** The first position at or after `from` that is not skipped, or the end:
      where advance stops. */
  function NextEvent(outcomes: seq<EntryOutcome>, from: nat): (j: nat)
    requires from <= |outcomes|
    ensures from <= j <= |outcomes|
    ensures forall k :: from <= k < j ==> outcomes[k].Skip?
    ensures j < |outcomes| ==> !outcomes[j].Skip?
    decreases |outcomes| - from
  {
    if from == |outcomes| || !outcomes[from].Skip? then from else NextEvent(outcomes, from + 1)
  }

  /** Skipped entries add no document. */
  lemma {:induction false} EmittedAcrossSkips(outcomes: seq<EntryOutcome>, lo: nat, hi: nat)
    requires lo <= hi <= |outcomes|
    requires forall k :: lo <= k < hi ==> outcomes[k].Skip?
    ensures Emitted(outcomes[..hi]) == Emitted(outcomes[..lo])
    decreases hi
  {
    if lo < hi {
      assert outcomes[..hi][..hi - 1] == outcomes[..hi - 1];
      EmittedAcrossSkips(outcomes, lo, hi - 1);
    }
  }

  /** One more entry adds its document, if it has one. */
  lemma EmittedStep(outcomes: seq<EntryOutcome>, j: nat)
    requires j < |outcomes|
    ensures Emitted(outcomes[..j + 1]) ==
      Emitted(outcomes[..j]) + (if outcomes[j].Emit? then [outcomes[j].doc] else [])
  {
    assert outcomes[..j + 1][..j] == outcomes[..j];
  }

  /** The position of the first failing entry. */
  function FirstFailure(outcomes: seq<EntryOutcome>): (r: Option<nat>)
    ensures r.Some? ==> r.value < |outcomes| && outcomes[r.value].Throws?
    ensures r.Some? ==> forall k :: 0 <= k < r.value ==> !outcomes[k].Throws?
    ensures r.None? ==> forall k :: 0 <= k < |outcomes| ==> !outcomes[k].Throws?
    decreases |outcomes|
  {
    if outcomes == [] then None
    else if outcomes[0].Throws? then Some(0)
    else match FirstFailure(outcomes[1..])
      case Some(k) => Some(k + 1)
      case None => None
  }

  /** Draining an extraction: the documents in order, or the first failure as
      advance rethrows it. */
  function Drained(outcomes: seq<EntryOutcome>): Result<seq<ExtractedDocument>, Exception> {
    match FirstFailure(outcomes)
    case Some(k) => Failure(Wrap(outcomes[k].error))
    case None => Success(Emitted(outcomes))
  }

  /** A failing entry with no failure before it is the first failure. */
  lemma FirstFailureIs(outcomes: seq<EntryOutcome>, j: nat)
    requires j < |outcomes| && outcomes[j].Throws?
    requires forall k :: 0 <= k < j ==> !outcomes[k].Throws?
    ensures FirstFailure(outcomes) == Some(j)
  {
  }

  /** No entry before the position failed. */
  ghost predicate NoThrowBefore(outcomes: seq<EntryOutcome>, position: nat) {
    position <= |outcomes| && forall k :: 0 <= k < position ==> !outcomes[k].Throws?
  }

  lemma NoThrowPastEvent(outcomes: seq<EntryOutcome>, from: nat, j: nat)
    requires NoThrowBefore(outcomes, from) && j == NextEvent(outcomes, from)
    requires j < |outcomes| && outcomes[j].Emit?
    ensures NoThrowBefore(outcomes, j + 1)
  {
  }

  lemma NoThrowAtAll(outcomes: seq<EntryOutcome>, position: nat)
    requires NoThrowBefore(outcomes, position) && position == |outcomes|
    ensures Drained(outcomes) == Success(Emitted(outcomes[..position]))
  {
    assert outcomes[..position] == outcomes;
  }

  /** Reading past skipped entries up to one more entry: the documents so far
      gain that entry's document, if any, and an entry that is not skipped is
      where advance stops. */
  lemma EventStep(outcomes: seq<EntryOutcome>, start: nat, j: nat)
    requires start <= j < |outcomes|
    requires forall k :: start <= k < j ==> outcomes[k].Skip?
    ensures Emitted(outcomes[..j + 1]) ==
      Emitted(outcomes[..start]) + (if outcomes[j].Emit? then [outcomes[j].doc] else [])
    ensures !outcomes[j].Skip? ==> NextEvent(outcomes, start) == j
    ensures outcomes[j].Skip? ==> forall k :: start <= k < j + 1 ==> outcomes[k].Skip?
  {
    EmittedAcrossSkips(outcomes, start, j);
    EmittedStep(outcomes, j);
    if !outcomes[j].Skip? {
      NextEventStops(outcomes, start, j);
    }
  }

  lemma {:induction false} NextEventStops(outcomes: seq<EntryOutcome>, start: nat, j: nat)
    requires start <= j <= |outcomes| && (j < |outcomes| ==> !outcomes[j].Skip?)
    requires forall k :: start <= k < j ==> outcomes[k].Skip?
    ensures NextEvent(outcomes, start) == j
    decreases j - start
  {
    if start < j {
      NextEventStops(outcomes, start + 1, j);
    }
  }
}
