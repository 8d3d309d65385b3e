/** What both loading collectors share: the Lucene handles a session holds
    (DocumentLoaderSupplierObj), the writer configuration postConstruct
    forces, and the sequential meaning of the accumulator: every
    addDocument attempt, in order, with the writer's answer. */
module Loading {
  import opened Wrappers
  import opened Errors
  import opened Transformer

  /** IndexWriterConfig.OpenMode */
  datatype OpenMode = Create | Append | CreateOrAppend

  /** The two settings the collectors touch; `settings` stands for the rest. */
  datatype IndexWriterConfig = IndexWriterConfig(openMode: OpenMode, useCompoundFile: bool, settings: nat)

  /** new IndexWriterConfig(): Lucene's defaults. */
  const DefaultConfig: IndexWriterConfig := IndexWriterConfig(CreateOrAppend, true, 0)

  /** Handles to an opened Directory and IndexWriter; only their identity
      matters. */
  datatype Directory = Directory(id: nat)
  datatype IndexWriter = IndexWriter(id: nat)

  /** The session the collector hands to the stream. */
  datatype DocumentLoaderSupplierObj = DocumentLoaderSupplierObj(dir: Directory, iwc: IndexWriterConfig, iw: IndexWriter)

  const OpenFailurePrefix: string := "Could not open directory location:"
  const CommitFailure: string := "Could not commit."

  /** The configuration postConstruct uses: the one set on the collector, or
      a default one, with CREATE_OR_APPEND and without compound files, its
      other settings kept. */
  function Configure(iwc: Option<IndexWriterConfig>): (c: IndexWriterConfig)
    ensures c.openMode == CreateOrAppend && !c.useCompoundFile
    ensures c.settings == if iwc.Some? then iwc.value.settings else DefaultConfig.settings
  {
    var base := if iwc.Some? then iwc.value else DefaultConfig;
    base.(openMode := CreateOrAppend, useCompoundFile := false)
  }

  /** One call of the accumulator: the document, and what the writer's
      addDocument did with it. */
  datatype Attempt = Attempt(doc: TransformedDocument, added: Outcome<Exception>)

  /** The attempts of a run: documents paired with the writer's answers. */
  function Attempts(docs: seq<TransformedDocument>, answers: seq<Outcome<Exception>>): (a: seq<Attempt>)
    requires |docs| == |answers|
    ensures |a| == |docs| && forall i :: 0 <= i < |a| ==> a[i] == Attempt(docs[i], answers[i])
  {
    seq(|docs|, i requires 0 <= i < |docs| => Attempt(docs[i], answers[i]))
  }

  /** The number of documents the writer accepted. */
  function Successes(attempts: seq<Attempt>): nat
    decreases |attempts|
  {
    if attempts == [] then 0
    else Successes(attempts[..|attempts| - 1]) + (if attempts[|attempts| - 1].added.Pass? then 1 else 0)
  }

  /** The number of documents the writer refused. */
  function Failures(attempts: seq<Attempt>): nat
    decreases |attempts|
  {
    if attempts == [] then 0
    else Failures(attempts[..|attempts| - 1]) + (if attempts[|attempts| - 1].added.Fail? then 1 else 0)
  }

  /** The position of the first refused document. */
  function FirstFailing(attempts: seq<Attempt>): (r: Option<nat>)
    ensures r.Some? ==> r.value < |attempts| && attempts[r.value].added.Fail?
    ensures r.Some? ==> forall k :: 0 <= k < r.value ==> attempts[k].added.Pass?
    ensures r.None? ==> forall k :: 0 <= k < |attempts| ==> attempts[k].added.Pass?
    decreases |attempts|
  {
    if attempts == [] then None
    else if attempts[0].added.Fail? then Some(0)
    else match FirstFailing(attempts[1..])
      case Some(k) => Some(k + 1)
      case None => None
  }

  /** Every attempt either adds to the count or is a failure. */
  lemma {:induction false} SuccessesAndFailures(attempts: seq<Attempt>)
    ensures Successes(attempts) + Failures(attempts) == |attempts|
    decreases |attempts|
  {
    if attempts != [] {
      SuccessesAndFailures(attempts[..|attempts| - 1]);
    }
  }

  /** A further attempt leaves the first failure where it was, if there was
      one; otherwise it is the first failure exactly when it failed. */
  lemma FirstFailingAppend(attempts: seq<Attempt>, a: Attempt)
    ensures FirstFailing(attempts + [a]) ==
      if FirstFailing(attempts).Some? then FirstFailing(attempts)
      else if a.added.Fail? then Some(|attempts|)
      else None
  {
    var all := attempts + [a];
    match FirstFailing(attempts)
    case Some(k) =>
      assert all[k] == attempts[k];
      FirstFailingIs(all, k);
    case None =>
      if a.added.Fail? {
        FirstFailingIs(all, |attempts|);
      } else {
        assert forall k :: 0 <= k < |all| ==> all[k].added.Pass? by {
          forall k | 0 <= k < |all| ensures all[k].added.Pass? {
            if k < |attempts| {
              assert all[k] == attempts[k];
            }
          }
        }
      }
  }

  lemma FirstFailingIs(attempts: seq<Attempt>, j: nat)
    requires j < |attempts| && attempts[j].added.Fail?
    requires forall k :: 0 <= k < j ==> attempts[k].added.Pass?
    ensures FirstFailing(attempts) == Some(j)
  {
  }

  /** When the writer accepts every document, the count is the number of
      documents and there is no failure. */
  lemma {:induction false} AllAccepted(attempts: seq<Attempt>)
    requires forall k :: 0 <= k < |attempts| ==> attempts[k].added.Pass?
    ensures Successes(attempts) == |attempts| && FirstFailing(attempts).None?
    decreases |attempts|
  {
    if attempts != [] {
      AllAccepted(attempts[..|attempts| - 1]);
    }
  }

  /** The combiner: the first session, whatever the second. */
  function Combine(t: DocumentLoaderSupplierObj, u: DocumentLoaderSupplierObj): DocumentLoaderSupplierObj {
    t
  }

  /** The combiner is associative and idempotent, as a Collector's must be,
      and returns the session it was given first. */
  lemma CombineLaws(s: DocumentLoaderSupplierObj, t: DocumentLoaderSupplierObj, u: DocumentLoaderSupplierObj)
    ensures Combine(Combine(s, t), u) == Combine(s, Combine(t, u))
    ensures Combine(s, s) == s
    ensures Combine(s, t) == s
  {
  }
}
