/** The raw document that extraction produces and transformation consumes
    (ExtractedDocument, and IngestDocument of the older ingest package): a
    read-only map from field name to an untyped value. */
module Documents {
  import opened Wrappers
  import opened JavaStrings

  type Nano = n: int | 0 <= n < 1_000_000_000

  /** A point on the UTC time-line (java.time.Instant), which is all that the
      ZonedDateTime the extractor stores carries for the core. */
  datatype Instant = Instant(epochSecond: int, nano: Nano)

  /** The values the extractor puts into a document. */
  datatype Value =
    | IntValue(i: int)                 // java.lang.Integer
    | StringValue(s: string)           // java.lang.String
    | TimestampValue(t: Instant)       // java.time.ZonedDateTime in UTC
    | StringArrayValue(a: seq<string>) // String[]
    | NullValue                        // a null stored under a key

  datatype ExtractedDocument = ExtractedDocument(content: map<string, Value>)

  /** Instant.toEpochMilli(): multiplyExact and addExact on long, so a result
      outside long's range is an ArithmeticException (None). */
  function ToEpochMilli(t: Instant): Option<int> {
    if t.epochSecond < 0 && t.nano > 0 then
      var millis := (t.epochSecond + 1) * 1000;
      var adjustment := t.nano / 1_000_000 - 1000;
      if !(MinLong <= millis <= MaxLong) || !(MinLong <= millis + adjustment <= MaxLong) then None
      else Some(millis + adjustment)
    else
      var millis := t.epochSecond * 1000;
      if !(MinLong <= millis <= MaxLong) || !(MinLong <= millis + t.nano / 1_000_000 <= MaxLong) then None
      else Some(millis + t.nano / 1_000_000)
  }

  /** The milliseconds since the epoch, rounded towards the past, whenever
      they fit in a long, and an ArithmeticException exactly when they do
      not: the two branches of toEpochMilli agree on one formula. */
  lemma EpochMilliIsFloor(t: Instant)
    ensures var exact := t.epochSecond * 1000 + t.nano / 1_000_000;
      ToEpochMilli(t) == if MinLong <= exact <= MaxLong then Some(exact) else None
  {
    var exact := t.epochSecond * 1000 + t.nano / 1_000_000;
    if t.epochSecond < 0 && t.nano > 0 {
      assert (t.epochSecond + 1) * 1000 + (t.nano / 1_000_000 - 1000) == exact;
    }
  }
}
