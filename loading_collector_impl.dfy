/** LuceneLoadingCollectorImpl: the Collector that adds transformed
    documents to a Lucene index through one shared session, counting the
    documents the writer accepts and keeping the first one it refuses with
    the exception. Streams drive it sequentially here. */
module LoadingCollectorImpl {
  import opened Wrappers
  import opened Errors
  import opened Transformer
  import opened Loading

  /** LuceneLoadingCollectorFailure: the first refused document and why. */
  datatype LoadingFailure = LoadingFailure(failedDocument: TransformedDocument, exception: Exception)

  const WriterCloseFailure: string := "Could not close index writer"
  const DirectoryCloseFailure: string := "Could not close directory"

  /** The failure slot's content after the given attempts. */
  function FirstFailureOf(attempts: seq<Attempt>): Option<LoadingFailure> {
    match FirstFailing(attempts)
    case None => None
    case Some(k) => Some(LoadingFailure(attempts[k].doc, attempts[k].added.error))
  }

  /** A fresh collector over documents the writer all accepts counts every
      one of them and records no failure. */
  lemma AllDocumentsLoaded(docs: seq<TransformedDocument>, answers: seq<Outcome<Exception>>)
    requires |answers| == |docs| && forall i :: 0 <= i < |answers| ==> answers[i].Pass?
    ensures Successes(Attempts(docs, answers)) == |docs|
    ensures FirstFailureOf(Attempts(docs, answers)).None?
  {
    AllAccepted(Attempts(docs, answers));
  }

  /** The recorded failure is the first refused document with the writer's
      exception, and there is one exactly when some document was refused. */
  lemma FirstFailureRecorded(attempts: seq<Attempt>)
    ensures FirstFailureOf(attempts).None? <==> forall k :: 0 <= k < |attempts| ==> attempts[k].added.Pass?
    ensures FirstFailureOf(attempts).Some? ==>
      (exists k ::
        && 0 <= k < |attempts|
        && attempts[k].added.Fail?
        && (forall j :: 0 <= j < k ==> attempts[j].added.Pass?)
        && FirstFailureOf(attempts).value == LoadingFailure(attempts[k].doc, attempts[k].added.error))
  {
    if FirstFailing(attempts).Some? {
      var k := FirstFailing(attempts).value;
      assert attempts[k].added.Fail?;
    }
  }

  /** What preDestroy throws once the session is set, from the answers of
      the writer's and the directory's close(). */
  function CloseOutcome(writerClosed: Outcome<Exception>, dirClosed: Outcome<Exception>): Outcome<Exception> {
    match writerClosed
    case Pass => Pass
    case Fail(ew) =>
      match dirClosed
      case Pass => Fail(WrapWith(WriterCloseFailure, ew))
      case Fail(ed) => Fail(WrapWith(DirectoryCloseFailure, ed))
  }

  /** preDestroy as written throws exactly when the writer's close failed; a
      failure of the directory's close alone goes unreported, and replaces
      the writer's exception when both fail. */
  lemma CloseOutcomeReports(writerClosed: Outcome<Exception>, dirClosed: Outcome<Exception>)
    ensures CloseOutcome(writerClosed, dirClosed).Fail? <==> writerClosed.Fail?
    ensures writerClosed.Pass? && dirClosed.Fail? ==> CloseOutcome(writerClosed, dirClosed) == Pass
    ensures writerClosed.Fail? ==>
      CloseOutcome(writerClosed, dirClosed).error ==
        if dirClosed.Fail? then WrapWith(DirectoryCloseFailure, dirClosed.error)
        else WrapWith(WriterCloseFailure, writerClosed.error)
  {
  }

  class LuceneLoadingCollectorImpl {
    /** The location's text, as the open failure's message shows it. */
    const localDiskLocation: string
    var counter: int
    var firstFailure: Option<LoadingFailure>
    var dlso: Option<DocumentLoaderSupplierObj>
    var iwc: Option<IndexWriterConfig>
    /** Every accumulator call so far. */
    ghost var attempts: seq<Attempt>

    /** The counter is the number of accepted documents and the slot holds
        the first refused one. */
    ghost predicate Valid()
      reads this
    {
      counter == Successes(attempts) && firstFailure == FirstFailureOf(attempts)
    }

    constructor(localDiskLocation: string)
      ensures Valid() && attempts == []
      ensures counter == 0 && firstFailure.None? && dlso.None? && iwc.None?
      ensures this.localDiskLocation == localDiskLocation
    {
      this.localDiskLocation := localDiskLocation;
      counter := 0;
      firstFailure := None;
      dlso := None;
      iwc := None;
      attempts := [];
    }

    /** postConstruct: forces the configuration, then opens the directory
        and the writer; either failure is wrapped and thrown, and leaves the
        session as it was. */
    method PostConstruct(dirOpened: Result<Directory, Exception>, writerOpened: Result<IndexWriter, Exception>)
      returns (r: Outcome<Exception>)
      requires Valid()
      modifies this
      ensures Valid() && attempts == old(attempts) && counter == old(counter) && firstFailure == old(firstFailure)
      ensures iwc == Some(Configure(old(iwc)))
      ensures match (dirOpened, writerOpened)
        case (Failure(e), _) => r == Fail(WrapWith(OpenFailurePrefix + localDiskLocation, e)) && dlso == old(dlso)
        case (_, Failure(e)) => r == Fail(WrapWith(OpenFailurePrefix + localDiskLocation, e)) && dlso == old(dlso)
        case (Success(dir), Success(iw)) =>
          r == Pass && dlso == Some(DocumentLoaderSupplierObj(dir, Configure(old(iwc)), iw))
    {
      iwc := Some(Configure(iwc));
      if dirOpened.Failure? {
        return Fail(WrapWith(OpenFailurePrefix + localDiskLocation, dirOpened.error));
      }
      if writerOpened.Failure? {
        return Fail(WrapWith(OpenFailurePrefix + localDiskLocation, writerOpened.error));
      }
      dlso := Some(DocumentLoaderSupplierObj(dirOpened.value, iwc.value, writerOpened.value));
      return Pass;
    }

    /** check(): the session must be set. */
    method Check() returns (r: Outcome<Exception>)
      ensures r == if dlso.Some? then Pass else Fail(Raise(NotInitialised))
    {
      if dlso.None? {
        return Fail(Raise(NotInitialised));
      }
      return Pass;
    }

    /** preDestroy: check, close the writer and then the directory, always
        drop the session, and throw what CloseOutcome says. */
    method PreDestroy(writerClosed: Outcome<Exception>, dirClosed: Outcome<Exception>) returns (r: Outcome<Exception>)
      requires Valid()
      modifies this
      ensures Valid() && attempts == old(attempts) && counter == old(counter) && firstFailure == old(firstFailure)
      ensures iwc == old(iwc)
      ensures old(dlso).None? ==> r == Fail(Raise(NotInitialised)) && dlso.None?
      ensures old(dlso).Some? ==> r == CloseOutcome(writerClosed, dirClosed) && dlso.None?
    {
      var checked := Check();
      if checked.Fail? {
        return checked;
      }
      var msg: Option<string> := None;
      var e1: Option<Exception> := None;
      if writerClosed.Fail? {
        msg := Some(WriterCloseFailure);
        e1 := Some(writerClosed.error);
      }
      if dirClosed.Fail? {
        if e1.Some? {
          msg := Some(DirectoryCloseFailure);
          e1 := Some(dirClosed.error);
        }
      }
      dlso := None;
      if msg.Some? {
        return Fail(WrapWith(msg.value, e1.value));
      }
      return Pass;
    }

    /** firstFailure(): the slot's content. */
    method FirstFailure() returns (r: Option<LoadingFailure>)
      requires Valid()
      ensures r == FirstFailureOf(attempts)
    {
      return firstFailure;
    }

    /** supplier() followed by get(): the one shared session, or the check's
        exception. */
    method Supplier() returns (r: Result<DocumentLoaderSupplierObj, Exception>)
      ensures dlso.Some? ==> r == Success(dlso.value)
      ensures dlso.None? ==> r == Failure(Raise(NotInitialised))
    {
      var checked := Check();
      if checked.Fail? {
        return Failure(checked.error);
      }
      return Success(dlso.value);
    }

    /** The accumulator: addDocument on the session's writer; an accepted
        document adds one to the counter, a refused one is recorded only
        when no failure is recorded yet, and nothing is thrown. */
    method Accumulate(t: DocumentLoaderSupplierObj, u: TransformedDocument, added: Outcome<Exception>)
      requires Valid()
      modifies this
      ensures Valid() && attempts == old(attempts) + [Attempt(u, added)]
      ensures dlso == old(dlso) && iwc == old(iwc)
      ensures added.Pass? ==> counter == old(counter) + 1 && firstFailure == old(firstFailure)
      ensures added.Fail? ==> counter == old(counter)
      ensures added.Fail? ==>
        firstFailure == if old(firstFailure).None? then Some(LoadingFailure(u, added.error)) else old(firstFailure)
    {
      FirstFailingAppend(attempts, Attempt(u, added));
      var all := attempts + [Attempt(u, added)];
      assert all[..|all| - 1] == attempts;
      if FirstFailing(attempts).Some? {
        assert all[FirstFailing(attempts).value] == attempts[FirstFailing(attempts).value];
      }
      attempts := all;
      if added.Pass? {
        counter := counter + 1;
      } else if firstFailure.None? {
        firstFailure := Some(LoadingFailure(u, added.error));
      }
    }

    /** The finisher: commit, then the number of accepted documents; a
        commit failure is wrapped and thrown. */
    method Finish(t: DocumentLoaderSupplierObj, committed: Outcome<Exception>) returns (r: Result<int, Exception>)
      requires Valid()
      ensures committed.Fail? ==> r == Failure(WrapWith(CommitFailure, committed.error))
      ensures committed.Pass? ==> r == Success(Successes(attempts))
    {
      if committed.Fail? {
        return Failure(WrapWith(CommitFailure, committed.error));
      }
      return Success(counter);
    }

    /** stream.collect(collector) over the documents, the writer answering
        each addDocument in turn: the supplier's check, every document
        accumulated, then the finisher. */
    method Collect(docs: seq<TransformedDocument>, answers: seq<Outcome<Exception>>, committed: Outcome<Exception>)
      returns (r: Result<int, Exception>)
      requires Valid() && |answers| == |docs|
      modifies this
      ensures Valid() && dlso == old(dlso)
      ensures old(dlso).None? ==> r == Failure(Raise(NotInitialised)) && attempts == old(attempts)
      ensures old(dlso).Some? ==> attempts == old(attempts) + Attempts(docs, answers)
      ensures old(dlso).Some? && committed.Fail? ==> r == Failure(WrapWith(CommitFailure, committed.error))
      ensures old(dlso).Some? && committed.Pass? ==> r == Success(Successes(attempts))
    {
      var session := Supplier();
      if session.Failure? {
        return Failure(session.error);
      }
      ghost var start := attempts;
      for i := 0 to |docs|
        invariant Valid() && dlso == old(dlso)
        invariant attempts == start + Attempts(docs[..i], answers[..i])
      {
        Accumulate(session.value, docs[i], answers[i]);
        assert Attempts(docs[..i + 1], answers[..i + 1]) == Attempts(docs[..i], answers[..i]) + [Attempt(docs[i], answers[i])];
      }
      assert docs[..|docs|] == docs && answers[..|answers|] == answers;
      r := Finish(session.value, committed);
    }
  }
}
