/** SearchResults and SearchResult: what a query returns, and the Builder
    the results are assembled with. The record's getters are the datatype's
    fields. */
module Search {
  import opened Wrappers
  import opened Errors
  import opened JavaStrings

  /** A Java int and a Java long. */
  type Int = x: int | MinInt <= x <= MaxInt
  type Long = x: int | MinLong <= x <= MaxLong

  /** The IEEE bit patterns of a float and a double, carried unchanged. */
  datatype Float = Float(bits: bv32)
  datatype Double = Double(bits: bv64)

  /** The objects a result row holds for one stored value. */
  datatype Obj =
    | IntObj(i: Int)
    | BytesObj(bytes: seq<bv8>)
    | DoubleObj(d: Double)
    | FloatObj(f: Float)
    | LongObj(l: Long)
    | StringObj(s: string)

  /** A row's value for one field name: the value itself when the document
      stores the name once, the list of its values otherwise. */
  datatype DisplayValue = Scalar(value: Obj) | ListOf(values: seq<Obj>)

  /** SearchResult: one returned document, field name to value. */
  datatype SearchResult = SearchResult(values: map<string, DisplayValue>)

  /** SearchResults: the engine's hit count, whether it is a lower bound,
      and the returned rows in ranking order. */
  datatype SearchResults = SearchResults(totalHits: Long, totalApproximate: bool, results: seq<SearchResult>)

  /** SearchResults.Builder: its setters change one field and hand back the
      same builder. `results` is None until set, as the Java list is null. */
  class Builder {
    var totalHits: Long
    var totalApproximate: bool
    var results: Option<seq<SearchResult>>

    constructor()
      ensures totalHits == 0 && !totalApproximate && results.None?
    {
      totalHits := 0;
      totalApproximate := false;
      results := None;
    }

    method TotalHits(totalHits: Long) returns (b: Builder)
      modifies this
      ensures b == this && this.totalHits == totalHits
      ensures totalApproximate == old(totalApproximate) && results == old(results)
    {
      this.totalHits := totalHits;
      return this;
    }

    method TotalApproximate(totalApproximate: bool) returns (b: Builder)
      modifies this
      ensures b == this && this.totalApproximate == totalApproximate
      ensures totalHits == old(totalHits) && results == old(results)
    {
      this.totalApproximate := totalApproximate;
      return this;
    }

    method Results(results: seq<SearchResult>) returns (b: Builder)
      modifies this
      ensures b == this && this.results == Some(results)
      ensures totalHits == old(totalHits) && totalApproximate == old(totalApproximate)
    {
      this.results := Some(results);
      return this;
    }
  }

  /** new SearchResults(builder): the builder's values; making the read-only
      view of a list that was never set throws. */
  function FromBuilder(b: Builder): (r: Result<SearchResults, Exception>)
    reads b
    ensures r.Failure? <==> b.results.None?
    ensures r.Failure? ==> r.error == NullPointer
    ensures r.Success? ==>
      && r.value.totalHits == b.totalHits
      && r.value.totalApproximate == b.totalApproximate
      && r.value.results == b.results.value
  {
    match b.results
    case None => Failure(NullPointer)
    case Some(rs) => Success(SearchResults(b.totalHits, b.totalApproximate, rs))
  }
}
