/** DocumentTransformerHtmlBibleImpl.transformExtractedDocument: every entry of
    an extracted document becomes Lucene fields, chosen by the key first and
    by the value's type after. */
module Transformer {
  import opened Wrappers
  import opened Errors
  import opened JavaStrings
  import opened Documents

  /** Field.Store */
  datatype Store = Yes | No

  /** The Lucene fields the transformer creates. A TextField holds the
      analyzer's token stream over the HTML-stripped toString() of the value;
      the analyzer is not part of this model, so the field keeps the value the
      stream reads from. */
  datatype Field =
    | TextField(name: string, source: Value)
    | LongField(name: string, long: int, store: Store)
    | KeywordField(name: string, keyword: string, store: Store)
    | StringField(name: string, str: string, store: Store)

  datatype TransformedDocument = TransformedDocument(fields: seq<Field>)

  const TextKey: string := "text"

  /** The fields of one entry: "text" gives a TextField whatever its value;
      otherwise a timestamp gives an unstored LongField of its epoch
      milliseconds, a String[] one stored KeywordField per element, and any
      other value an unstored StringField of its toString(). A null value
      throws NullPointerException at toString(); a timestamp whose
      milliseconds overflow a long throws ArithmeticException. */
  function EncodeEntry(key: string, value: Value): (r: Result<seq<Field>, Exception>)
    ensures r.Success? ==> forall i :: 0 <= i < |r.value| ==> r.value[i].name == key
  {
    if key == TextKey then
      if value.NullValue? then Failure(NullPointer) else Success([TextField(key, value)])
    else match value
      case TimestampValue(t) =>
        (match ToEpochMilli(t)
         case None => Failure(Arithmetic)
         case Some(millis) => Success([LongField(key, millis, No)]))
      case StringArrayValue(a) => Success(seq(|a|, i requires 0 <= i < |a| => KeywordField(key, a[i], Yes)))
      case IntValue(n) => Success([StringField(key, IntToString(n), No)])
      case StringValue(s) => Success([StringField(key, s, No)])
      case NullValue => Failure(NullPointer)
  }

  /** The fields of the entries under the given keys, taken in that order,
      or the exception of the first entry that throws. */
  function Encoded(doc: ExtractedDocument, keys: seq<string>): Result<seq<Field>, Exception>
    requires forall i :: 0 <= i < |keys| ==> keys[i] in doc.content
    decreases |keys|
  {
    if keys == [] then Success([])
    else
      var last := keys[|keys| - 1];
      match Encoded(doc, keys[..|keys| - 1])
      case Failure(e) => Failure(e)
      case Success(fields) =>
        match EncodeEntry(last, doc.content[last])
        case Failure(e) => Failure(e)
        case Success(more) => Success(fields + more)
  }

  /** The body of transformExtractedDocument's loop: the fields of one
      entry added to those built so far, with an inner loop over an array's
      elements, or the exception the entry throws. */
  method AddEntryFields(fields: seq<Field>, key: string, value: Value) returns (r: Result<seq<Field>, Exception>)
    ensures r == match EncodeEntry(key, value)
                 case Failure(e) => Failure(e)
                 case Success(more) => Success(fields + more)
  {
    if key == TextKey {
      if value.NullValue? {
        return Failure(NullPointer);
      }
      return Success(fields + [TextField(key, value)]);
    } else if value.TimestampValue? {
      var millis := ToEpochMilli(value.t);
      if millis.None? {
        return Failure(Arithmetic);
      }
      return Success(fields + [LongField(key, millis.value, No)]);
    } else if value.StringArrayValue? {
      var all := fields;
      for j := 0 to |value.a|
        invariant all == fields + seq(j, k requires 0 <= k < j => KeywordField(key, value.a[k], Yes))
      {
        all := all + [KeywordField(key, value.a[j], Yes)];
      }
      return Success(all);
    } else if value.IntValue? {
      return Success(fields + [StringField(key, IntToString(value.i), No)]);
    } else if value.StringValue? {
      return Success(fields + [StringField(key, value.s, No)]);
    }
    return Failure(NullPointer);
  }

  /** transformExtractedDocument, walking the entries in the map's iteration
      order `order`, which lists every key once. A successful result holds,
      for every entry, exactly that entry's fields, and no others. */
  method TransformExtractedDocument(doc: ExtractedDocument, order: seq<string>)
    returns (r: Result<TransformedDocument, Exception>)
    requires forall i :: 0 <= i < |order| ==> order[i] in doc.content
    requires ListsEveryKeyOnce(doc, order)
    ensures r == match Encoded(doc, order)
                 case Failure(e) => Failure(e)
                 case Success(fields) => Success(TransformedDocument(fields))
    ensures r.Success? ==> |r.value.fields| == TotalWidth(doc, order)
    ensures r.Success? ==> GroupsEntries(doc, r.value.fields)
  {
    var fields: seq<Field> := [];
    for i := 0 to |order|
      invariant Encoded(doc, order[..i]) == Success(fields)
    {
      var key := order[i];
      assert order[..i + 1][..i] == order[..i];
      var next := AddEntryFields(fields, key, doc.content[key]);
      if next.Failure? {
        EncodedKeepsFailure(doc, order, i + 1);
        return Failure(next.error);
      }
      fields := next.value;
    }
    assert order[..|order|] == order;
    EveryEntryOnce(doc, order);
    return Success(TransformedDocument(fields));
  }

  /** A failure among the first n entries is the failure of the whole
      transformation. */
  lemma {:induction false} EncodedKeepsFailure(doc: ExtractedDocument, keys: seq<string>, n: nat)
    requires n <= |keys| && forall i :: 0 <= i < |keys| ==> keys[i] in doc.content
    requires Encoded(doc, keys[..n]).Failure?
    ensures Encoded(doc, keys) == Encoded(doc, keys[..n])
    decreases |keys| - n
  {
    if n < |keys| {
      assert keys[..n + 1][..n] == keys[..n];
      EncodedKeepsFailure(doc, keys, n + 1);
    } else {
      assert keys[..n] == keys;
    }
  }

  /** What one entry becomes: text gives exactly one TextField over its
      value; an array gives its elements, in order and unchanged, as stored
      keywords (nothing for an empty array); an Integer gives an unstored
      string of its decimal text, which Integer.parseInt reads back; a String
      gives itself as one unstored string; a timestamp gives its epoch
      milliseconds rounded to the past, unstored, or overflows; a null value
      throws. */
  lemma EncodeEntryMeaning(key: string, value: Value)
    ensures key == TextKey ==>
      (EncodeEntry(key, value).Success? <==> !value.NullValue?) &&
      (EncodeEntry(key, value).Success? ==>
         |EncodeEntry(key, value).value| == 1 && EncodeEntry(key, value).value[0].TextField? &&
         EncodeEntry(key, value).value[0].source == value)
    ensures key != TextKey && value.StringArrayValue? ==>
      var fs := EncodeEntry(key, value).value;
      && EncodeEntry(key, value).Success? && |fs| == |value.a|
      && forall i :: 0 <= i < |fs| ==> fs[i].KeywordField? && fs[i].keyword == value.a[i] && fs[i].store == Yes
    ensures key != TextKey && value.IntValue? && MinInt <= value.i <= MaxInt ==>
      var fs := EncodeEntry(key, value).value;
      && EncodeEntry(key, value).Success? && |fs| == 1 && fs[0].StringField? && fs[0].store == No
      && fs[0].str == IntToString(value.i) && ParseInt(fs[0].str) == Some(value.i)
    ensures key != TextKey && value.StringValue? ==> EncodeEntry(key, value) == Success([StringField(key, value.s, No)])
    ensures key != TextKey && value.TimestampValue? ==>
      var exact := value.t.epochSecond * 1000 + value.t.nano / 1_000_000;
      EncodeEntry(key, value) ==
        if MinLong <= exact <= MaxLong then Success([LongField(key, exact, No)]) else Failure(Arithmetic)
    ensures key != TextKey && value.NullValue? ==> EncodeEntry(key, value) == Failure(NullPointer)
  {
    if key != TextKey {
      match value
      case IntValue(n) =>
        if MinInt <= n <= MaxInt {
          ParseIntToString(n);
        }
      case TimestampValue(t) =>
        EpochMilliIsFloor(t);
      case _ =>
    }
  }

  /** How many fields an entry gives when it does not throw. */
  function Width(key: string, value: Value): nat {
    if key != TextKey && value.StringArrayValue? then |value.a| else 1
  }

  function TotalWidth(doc: ExtractedDocument, keys: seq<string>): nat
    requires forall i :: 0 <= i < |keys| ==> keys[i] in doc.content
    decreases |keys|
  {
    if keys == [] then 0
    else TotalWidth(doc, keys[..|keys| - 1]) + Width(keys[|keys| - 1], doc.content[keys[|keys| - 1]])
  }

  /** There is no allow-list: the number of fields is one per entry plus,
      for arrays, one per element instead. */
  lemma {:induction false} EncodedLength(doc: ExtractedDocument, keys: seq<string>)
    requires forall i :: 0 <= i < |keys| ==> keys[i] in doc.content
    requires Encoded(doc, keys).Success?
    ensures |Encoded(doc, keys).value| == TotalWidth(doc, keys)
    decreases |keys|
  {
    if keys != [] {
      var last := keys[|keys| - 1];
      EncodedLength(doc, keys[..|keys| - 1]);
      EncodeEntryMeaning(last, doc.content[last]);
    }
  }

  /** The keys list every key of the document, each once, as an iteration
      over the map does. */
  predicate ListsEveryKeyOnce(doc: ExtractedDocument, order: seq<string>) {
    && (forall i, j :: 0 <= i < j < |order| ==> order[i] != order[j])
    && (forall k :: k in doc.content ==> k in order)
  }

  /** Every entry of the document encodes, and the fields named after it are
      exactly its fields. */
  ghost predicate GroupsEntries(doc: ExtractedDocument, fields: seq<Field>) {
    forall k :: k in doc.content ==>
      EncodeEntry(k, doc.content[k]).Success? &&
      Named(fields, k) == EncodeEntry(k, doc.content[k]).value
  }

  /** When the keys list every entry once, a successful transformation has
      one field per entry (one per element for an array), and the fields
      named after each entry are exactly that entry's fields. */
  lemma EveryEntryOnce(doc: ExtractedDocument, order: seq<string>)
    requires forall i :: 0 <= i < |order| ==> order[i] in doc.content
    requires ListsEveryKeyOnce(doc, order)
    requires Encoded(doc, order).Success?
    ensures |Encoded(doc, order).value| == TotalWidth(doc, order)
    ensures GroupsEntries(doc, Encoded(doc, order).value)
  {
    EncodedLength(doc, order);
    forall k | k in doc.content
      ensures EncodeEntry(k, doc.content[k]).Success?
      ensures Named(Encoded(doc, order).value, k) == EncodeEntry(k, doc.content[k]).value
    {
      FieldsOfKey(doc, order, k);
    }
  }

  /** The transformation throws exactly when one of its entries does. */
  lemma {:induction false} EncodedFailsIffAnEntryFails(doc: ExtractedDocument, keys: seq<string>)
    requires forall i :: 0 <= i < |keys| ==> keys[i] in doc.content
    ensures Encoded(doc, keys).Failure? <==>
      exists i :: 0 <= i < |keys| && EncodeEntry(keys[i], doc.content[keys[i]]).Failure?
    decreases |keys|
  {
    if keys != [] {
      var n := |keys| - 1;
      var prefix := keys[..n];
      EncodedFailsIffAnEntryFails(doc, prefix);
      if Encoded(doc, prefix).Failure? {
        var i :| 0 <= i < |prefix| && EncodeEntry(prefix[i], doc.content[prefix[i]]).Failure?;
        assert keys[i] == prefix[i];
      } else {
        forall i | 0 <= i < n
          ensures EncodeEntry(keys[i], doc.content[keys[i]]).Success?
        {
          assert prefix[i] == keys[i];
        }
      }
    }
  }

  /** A document whose book the index could not resolve (a null book) fails
      to transform. */
  lemma UnresolvedBookFails(doc: ExtractedDocument, keys: seq<string>)
    requires forall i :: 0 <= i < |keys| ==> keys[i] in doc.content
    requires "book" in keys && doc.content["book"] == NullValue
    ensures Encoded(doc, keys).Failure?
  {
    var i :| 0 <= i < |keys| && keys[i] == "book";
    assert EncodeEntry(keys[i], doc.content[keys[i]]).Failure?;
    EncodedFailsIffAnEntryFails(doc, keys);
  }

  /** The fields with the given name, in order. */
  function Named(fields: seq<Field>, name: string): seq<Field>
    decreases |fields|
  {
    if fields == [] then []
    else
      var last := fields[|fields| - 1];
      Named(fields[..|fields| - 1], name) + (if last.name == name then [last] else [])
  }

  lemma {:induction false} NamedAppend(a: seq<Field>, b: seq<Field>, name: string)
    ensures Named(a + b, name) == Named(a, name) + Named(b, name)
    decreases |b|
  {
    if b == [] {
      assert a + b == a;
    } else {
      assert (a + b)[..|a + b| - 1] == a + b[..|b| - 1];
      NamedAppend(a, b[..|b| - 1], name);
    }
  }

  lemma {:induction false} NamedUniform(fields: seq<Field>, key: string, name: string)
    requires forall i :: 0 <= i < |fields| ==> fields[i].name == key
    ensures Named(fields, name) == if key == name then fields else []
    decreases |fields|
  {
    if fields != [] {
      NamedUniform(fields[..|fields| - 1], key, name);
    }
  }

  /** Fields are grouped by entry: when every key is listed once, the fields
      named k are exactly the fields of k's entry, and a name that is not a
      key names no field. */
  lemma {:induction false} FieldsOfKey(doc: ExtractedDocument, keys: seq<string>, name: string)
    requires forall i :: 0 <= i < |keys| ==> keys[i] in doc.content
    requires forall i, j :: 0 <= i < j < |keys| ==> keys[i] != keys[j]
    requires Encoded(doc, keys).Success?
    ensures name in keys ==>
      && EncodeEntry(name, doc.content[name]).Success?
      && Named(Encoded(doc, keys).value, name) == EncodeEntry(name, doc.content[name]).value
    ensures name !in keys ==> Named(Encoded(doc, keys).value, name) == []
    decreases |keys|
  {
    if keys != [] {
      var n := |keys| - 1;
      var last := keys[n];
      var prefix := keys[..n];
      FieldsOfKey(doc, prefix, name);
      var more := EncodeEntry(last, doc.content[last]).value;
      NamedAppend(Encoded(doc, prefix).value, more, name);
      NamedUniform(more, last, name);
      if name == last {
        assert name !in prefix;
      } else if name in keys {
        assert name in prefix;
      }
    }
  }
}
