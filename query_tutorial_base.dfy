/** QueryTutorialBase: the reader lifecycle every query tutorial shares, and
    how a search's hits become result rows. The engine is an oracle: the
    search's answer and each hit's stored fields come in as parameters. */
module QueryTutorial {
  import opened Wrappers
  import opened Errors
  import opened Search
  import Loading

  const QueryFailure: string := "Could not execute query."
  const ReaderCloseFailure: string := "Could not close index writer and/or directory"

  /** A BytesRef: a backing array and the slice of it that is the value. */
  datatype BytesRef = BytesRef(bytes: seq<bv8>, offset: int, length: int)

  /** A stored field's value, by its type tag. */
  datatype StoredValue =
    | IntegerValue(i: Int)
    | LongValue(l: Long)
    | FloatValue(f: Float)
    | DoubleValue(d: Double)
    | BinaryValue(ref: BytesRef)
    | StringValue(s: string)

  datatype StoredField = StoredField(name: string, value: StoredValue)

  /** The engine's answer to a search. */
  datatype Relation = EqualTo | GreaterThanOrEqualTo
  datatype TotalHits = TotalHits(value: Long, relation: Relation)
  datatype ScoreDoc = ScoreDoc(doc: Int, score: Float)
  datatype TopDocs = TopDocs(totalHits: TotalHits, scoreDocs: seq<ScoreDoc>)

  /** An open DirectoryReader; only its identity matters. */
  datatype DirectoryReader = DirectoryReader(id: nat)

  /** storedValueToObject: the value the tag names; a binary value gives
      the BytesRef's whole backing array. */
  function StoredValueToObject(sv: StoredValue): Obj {
    match sv
    case IntegerValue(i) => IntObj(i)
    case BinaryValue(ref) => BytesObj(ref.bytes)
    case DoubleValue(d) => DoubleObj(d)
    case FloatValue(f) => FloatObj(f)
    case LongValue(l) => LongObj(l)
    case StringValue(s) => StringObj(s)
  }

  /** The stored value an object reads back as: a binary one spans its
      whole array. */
  function ObjectToStoredValue(o: Obj): StoredValue {
    match o
    case IntObj(i) => IntegerValue(i)
    case BytesObj(b) => BinaryValue(BytesRef(b, 0, |b|))
    case DoubleObj(d) => DoubleValue(d)
    case FloatObj(f) => FloatValue(f)
    case LongObj(l) => LongValue(l)
    case StringObj(s) => StringValue(s)
  }

  /** The conversion loses nothing but a binary value's slice: every object
      reads back as itself, and a stored value comes back exactly when it is
      not a binary value, or one spanning its whole backing array. */
  lemma StoredValueRoundTrip(sv: StoredValue, o: Obj)
    ensures StoredValueToObject(ObjectToStoredValue(o)) == o
    ensures ObjectToStoredValue(StoredValueToObject(sv)) == sv <==>
      (sv.BinaryValue? ==> sv.ref.offset == 0 && sv.ref.length == |sv.ref.bytes|)
  {
  }

  /** The objects a value shows as in a row. */
  function Flatten(d: DisplayValue): seq<Obj> {
    match d
    case Scalar(v) => [v]
    case ListOf(vs) => vs
  }

  /** addDisplayableValueToMap: a first value for a name is stored as it is,
      a second turns it into the list of both, later ones are appended; no
      other name changes. */
  function WithValue(fieldMap: map<string, DisplayValue>, name: string, v: Obj): (r: map<string, DisplayValue>)
    ensures name in r && r.Keys == fieldMap.Keys + {name}
    ensures name !in fieldMap ==> r[name] == Scalar(v)
    ensures name in fieldMap ==> r[name].ListOf? && Flatten(r[name]) == Flatten(fieldMap[name]) + [v]
    ensures forall k :: k in fieldMap && k != name ==> r[k] == fieldMap[k]
  {
    if name !in fieldMap then fieldMap[name := Scalar(v)]
    else match fieldMap[name]
      case ListOf(vs) => fieldMap[name := ListOf(vs + [v])]
      case Scalar(existing) => fieldMap[name := ListOf([existing, v])]
  }

  /** The names a document stores. */
  function Names(fields: seq<StoredField>): set<string> {
    set i | 0 <= i < |fields| :: fields[i].name
  }

  /** A further field adds its name to the names. */
  lemma NamesAppend(fields: seq<StoredField>, f: StoredField)
    ensures Names(fields + [f]) == Names(fields) + {f.name}
  {
    var all := fields + [f];
    forall n | n in Names(all) ensures n in Names(fields) + {f.name} {
      var i :| 0 <= i < |all| && all[i].name == n;
      if i < |fields| {
        assert fields[i] == all[i];
      }
    }
    forall n | n in Names(fields) ensures n in Names(all) {
      var i :| 0 <= i < |fields| && fields[i].name == n;
      assert all[i] == fields[i];
    }
    assert all[|fields|] == f;
  }

  /** The objects stored under one name, in storage order. */
  function ValuesNamed(fields: seq<StoredField>, name: string): (r: seq<Obj>)
    ensures |r| > 0 <==> name in Names(fields)
    decreases |fields|
  {
    if fields == [] then []
    else
      var last := fields[|fields| - 1];
      var prefix := fields[..|fields| - 1];
      NamesAppend(prefix, last);
      assert prefix + [last] == fields;
      ValuesNamed(prefix, name) + (if last.name == name then [StoredValueToObject(last.value)] else [])
  }

  /** How a name's values show: alone as a scalar, several as a list. */
  function Display(values: seq<Obj>): DisplayValue
    requires |values| > 0
  {
    if |values| == 1 then Scalar(values[0]) else ListOf(values)
  }

  /** The row of one document: every stored name, with all its values in
      storage order. */
  function Row(fields: seq<StoredField>): (row: map<string, DisplayValue>)
    ensures row.Keys == Names(fields)
  {
    map name | name in Names(fields) :: Display(ValuesNamed(fields, name))
  }

  /** A row shows, for each name, exactly the values stored under it: one as
      a scalar, several as a list. */
  lemma RowShowsAllValues(fields: seq<StoredField>, name: string)
    ensures name in Row(fields) <==> exists i :: 0 <= i < |fields| && fields[i].name == name
    ensures name in Row(fields) ==> Flatten(Row(fields)[name]) == ValuesNamed(fields, name)
    ensures name in Row(fields) ==> (Row(fields)[name].Scalar? <==> |ValuesNamed(fields, name)| == 1)
  {
  }

  /** A further field adds its value to its own name's values only. */
  lemma ValuesNamedAppend(fields: seq<StoredField>, f: StoredField, name: string)
    ensures ValuesNamed(fields + [f], name) ==
      ValuesNamed(fields, name) + (if f.name == name then [StoredValueToObject(f.value)] else [])
  {
    var all := fields + [f];
    assert all[..|all| - 1] == fields;
  }

  lemma FlattenDisplay(values: seq<Obj>)
    requires |values| > 0
    ensures Flatten(Display(values)) == values
  {
  }

  /** Adding one more stored field to a row is addDisplayableValueToMap. */
  lemma RowStep(fields: seq<StoredField>, f: StoredField)
    ensures Row(fields + [f]) == WithValue(Row(fields), f.name, StoredValueToObject(f.value))
  {
    var all := fields + [f];
    var o := StoredValueToObject(f.value);
    NamesAppend(fields, f);
    var before := Row(fields);
    var after := Row(all);
    var next := WithValue(before, f.name, o);
    assert after.Keys == next.Keys;
    forall n | n in after ensures after[n] == next[n] {
      ValuesNamedAppend(fields, f, n);
      if n != f.name {
        assert after[n] == before[n];
      } else if n in before {
        var vs := ValuesNamed(fields, n);
        FlattenDisplay(vs);
        assert after[n] == ListOf(vs + [o]);
      } else {
        assert ValuesNamed(all, n) == [o];
      }
    }
  }

  /** addStoredFieldsToMap: one document's stored fields, in storage order,
      into a fresh map. */
  method AddStoredFieldsToMap(fields: seq<StoredField>) returns (fieldMap: map<string, DisplayValue>)
    ensures fieldMap == Row(fields)
  {
    fieldMap := map[];
    for i := 0 to |fields|
      invariant fieldMap == Row(fields[..i])
    {
      RowStep(fields[..i], fields[i]);
      assert fields[..i + 1] == fields[..i] + [fields[i]];
      fieldMap := WithValue(fieldMap, fields[i].name, StoredValueToObject(fields[i].value));
    }
    assert fields[..|fields|] == fields;
  }

  /** One row per hit, in ranking order; the first hit whose stored fields
      cannot be read ends the search with that exception. */
  function Rows(hits: seq<ScoreDoc>, stored: Int -> Result<seq<StoredField>, Exception>): (r: Result<seq<SearchResult>, Exception>)
    ensures r.Success? <==> forall i :: 0 <= i < |hits| ==> stored(hits[i].doc).Success?
    ensures r.Success? ==> |r.value| == |hits|
    ensures r.Success? ==> forall i :: 0 <= i < |hits| ==> r.value[i] == SearchResult(Row(stored(hits[i].doc).value))
    ensures r.Failure? ==> exists k ::
      && 0 <= k < |hits|
      && (forall i :: 0 <= i < k ==> stored(hits[i].doc).Success?)
      && stored(hits[k].doc) == Failure(r.error)
    decreases |hits|
  {
    if hits == [] then Success([])
    else match stored(hits[0].doc)
      case Failure(e) => Failure(e)
      case Success(fields) =>
        match Rows(hits[1..], stored)
        case Failure(e) => Failure(e)
        case Success(rest) => Success([SearchResult(Row(fields))] + rest)
  }

  /** What executeSearch returns once the reader is open: the engine's
      count, approximate unless the relation is EQUAL_TO, and the rows; any
      failure after the search starts is wrapped in one exception. */
  function SearchOutcome(maxResults: Int, search: Result<TopDocs, Exception>, stored: Int -> Result<seq<StoredField>, Exception>)
    : Result<SearchResults, Exception>
  {
    match search
    case Failure(e) => Failure(WrapWith(QueryFailure, e))
    case Success(docs) =>
      if maxResults < 0 then Failure(WrapWith(QueryFailure, IllegalArgument))
      else match Rows(docs.scoreDocs, stored)
        case Failure(e) => Failure(WrapWith(QueryFailure, e))
        case Success(rows) =>
          Success(SearchResults(docs.totalHits.value, docs.totalHits.relation != EqualTo, rows))
  }

  /** A search either fails as a whole, with the query failure message, or
      returns one row per hit with the engine's count and relation. */
  lemma SearchOutcomeMeaning(maxResults: Int, search: Result<TopDocs, Exception>, stored: Int -> Result<seq<StoredField>, Exception>)
    ensures SearchOutcome(maxResults, search, stored).Success? <==>
      && search.Success?
      && maxResults >= 0
      && forall i :: 0 <= i < |search.value.scoreDocs| ==> stored(search.value.scoreDocs[i].doc).Success?
    ensures SearchOutcome(maxResults, search, stored).Failure? ==>
      SearchOutcome(maxResults, search, stored).error.TutorialException? &&
      SearchOutcome(maxResults, search, stored).error.message == Some(QueryFailure)
    ensures SearchOutcome(maxResults, search, stored).Success? ==>
      var res := SearchOutcome(maxResults, search, stored).value;
      var docs := search.value;
      && res.totalHits == docs.totalHits.value
      && (res.totalApproximate <==> docs.totalHits.relation != EqualTo)
      && |res.results| == |docs.scoreDocs|
      && forall i :: 0 <= i < |docs.scoreDocs| ==> res.results[i].values == Row(stored(docs.scoreDocs[i].doc).value)
  {
  }

  class QueryTutorialBase {
    /** The location's text, as the open failure's message shows it. */
    const localDiskLocation: string
    var dr: Option<DirectoryReader>

    constructor(localDiskLocation: string)
      ensures this.localDiskLocation == localDiskLocation && dr.None?
    {
      this.localDiskLocation := localDiskLocation;
      dr := None;
    }

    /** postConstruct: open the directory, then a reader on it; either
        failure is wrapped and thrown and leaves the reader as it was. */
    method PostConstruct(dirOpened: Result<Loading.Directory, Exception>, readerOpened: Result<DirectoryReader, Exception>)
      returns (r: Outcome<Exception>)
      modifies this
      ensures dirOpened.Failure? ==> r == Fail(WrapWith(Loading.OpenFailurePrefix + localDiskLocation, dirOpened.error)) && dr == old(dr)
      ensures dirOpened.Success? && readerOpened.Failure? ==>
        r == Fail(WrapWith(Loading.OpenFailurePrefix + localDiskLocation, readerOpened.error)) && dr == old(dr)
      ensures dirOpened.Success? && readerOpened.Success? ==> r == Pass && dr == Some(readerOpened.value)
    {
      if dirOpened.Failure? {
        return Fail(WrapWith(Loading.OpenFailurePrefix + localDiskLocation, dirOpened.error));
      }
      if readerOpened.Failure? {
        return Fail(WrapWith(Loading.OpenFailurePrefix + localDiskLocation, readerOpened.error));
      }
      dr := Some(readerOpened.value);
      return Pass;
    }

    /** check(): a reader must be open. */
    method Check() returns (r: Outcome<Exception>)
      ensures r == if dr.Some? then Pass else Fail(Raise(NotInitialised))
    {
      if dr.None? {
        return Fail(Raise(NotInitialised));
      }
      return Pass;
    }

    /** preDestroy: close the reader and forget it; a failing close is
        wrapped and thrown and the reader is kept. */
    method PreDestroy(closed: Outcome<Exception>) returns (r: Outcome<Exception>)
      modifies this
      ensures old(dr).None? ==> r == Fail(Raise(NotInitialised)) && dr.None?
      ensures old(dr).Some? && closed.Fail? ==> r == Fail(WrapWith(ReaderCloseFailure, closed.error)) && dr == old(dr)
      ensures old(dr).Some? && closed.Pass? ==> r == Pass && dr.None?
    {
      var checked := Check();
      if checked.Fail? {
        return checked;
      }
      if closed.Fail? {
        return Fail(WrapWith(ReaderCloseFailure, closed.error));
      }
      dr := None;
      return Pass;
    }

    /** executeSearch: check, search, then one row per hit, assembled with
        a SearchResults.Builder. */
    method ExecuteSearch(maxResults: Int, search: Result<TopDocs, Exception>, stored: Int -> Result<seq<StoredField>, Exception>)
      returns (r: Result<SearchResults, Exception>)
      ensures dr.None? ==> r == Failure(Raise(NotInitialised))
      ensures dr.Some? ==> r == SearchOutcome(maxResults, search, stored)
    {
      var checked := Check();
      if checked.Fail? {
        return Failure(checked.error);
      }
      if search.Failure? {
        return Failure(WrapWith(QueryFailure, search.error));
      }
      var docs := search.value;
      if maxResults < 0 {
        return Failure(WrapWith(QueryFailure, IllegalArgument));
      }
      var resultList: seq<SearchResult> := [];
      assert docs.scoreDocs[0..] == docs.scoreDocs;
      PrependNothing(Rows(docs.scoreDocs, stored));
      for i := 0 to |docs.scoreDocs|
        invariant Rows(docs.scoreDocs, stored) == Prepend(resultList, Rows(docs.scoreDocs[i..], stored))
      {
        var sd := docs.scoreDocs[i];
        var fields := stored(sd.doc);
        var tail := docs.scoreDocs[i..];
        assert tail[0] == sd && tail[1..] == docs.scoreDocs[i + 1..];
        if fields.Failure? {
          assert Rows(tail, stored) == Failure(fields.error);
          return Failure(WrapWith(QueryFailure, fields.error));
        }
        var fieldMap := AddStoredFieldsToMap(fields.value);
        assert Rows(tail, stored) == Prepend([SearchResult(fieldMap)], Rows(tail[1..], stored));
        PrependStep(resultList, SearchResult(fieldMap), Rows(tail[1..], stored));
        resultList := resultList + [SearchResult(fieldMap)];
      }
      assert docs.scoreDocs[|docs.scoreDocs|..] == [] && resultList + [] == resultList;
      var b := new Builder();
      b := b.Results(resultList);
      b := b.TotalHits(docs.totalHits.value);
      b := b.TotalApproximate(docs.totalHits.relation != EqualTo);
      r := FromBuilder(b);
    }
  }

  lemma PrependNothing(rest: Result<seq<SearchResult>, Exception>)
    ensures Prepend([], rest) == rest
  {
    if rest.Success? {
      assert [] + rest.value == rest.value;
    }
  }

  lemma PrependStep(done: seq<SearchResult>, row: SearchResult, rest: Result<seq<SearchResult>, Exception>)
    ensures Prepend(done, Prepend([row], rest)) == Prepend(done + [row], rest)
  {
    if rest.Success? {
      assert done + ([row] + rest.value) == (done + [row]) + rest.value;
    }
  }

  /** The rows gathered so far in front of the rows still to come. */
  function Prepend(done: seq<SearchResult>, rest: Result<seq<SearchResult>, Exception>): Result<seq<SearchResult>, Exception> {
    match rest
    case Failure(e) => Failure(e)
    case Success(more) => Success(done + more)
  }
}
