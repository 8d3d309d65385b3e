/** LuceneLoadingCollector: the earlier collector, over a directory path. It
    records only the first refused document, not why, and its preDestroy
    stops at the first close that fails and then keeps the session. */
module LoadingCollectorLegacy {
  import opened Wrappers
  import opened Errors
  import opened Transformer
  import opened Loading

  const CloseFailure: string := "Could not close index writer and/or directory"

  /** The failure slot's content after the given attempts. */
  function FirstFailedDocument(attempts: seq<Attempt>): Option<TransformedDocument> {
    match FirstFailing(attempts)
    case None => None
    case Some(k) => Some(attempts[k].doc)
  }

  class LuceneLoadingCollector {
    /** The path's text, as the open failure's message shows it. */
    const localDiskLocation: string
    var counter: int
    var firstFailure: Option<TransformedDocument>
    var dlso: Option<DocumentLoaderSupplierObj>
    var iwc: Option<IndexWriterConfig>
    /** Every accumulator call so far. */
    ghost var attempts: seq<Attempt>

    /** The counter is the number of accepted documents and the slot holds
        the first refused one. */
    ghost predicate Valid()
      reads this
    {
      counter == Successes(attempts) && firstFailure == FirstFailedDocument(attempts)
    }

    constructor(localDiskLocation: string)
      ensures Valid() && attempts == []
      ensures counter == 0 && firstFailure.None? && dlso.None? && iwc.None?
      ensures this.localDiskLocation == localDiskLocation
    {
      this.localDiskLocation := localDiskLocation;
      counter := 0;
      firstFailure := None;
      dlso := None;
      iwc := None;
      attempts := [];
    }

    /** postConstruct: as in LuceneLoadingCollectorImpl. */
    method PostConstruct(dirOpened: Result<Directory, Exception>, writerOpened: Result<IndexWriter, Exception>)
      returns (r: Outcome<Exception>)
      requires Valid()
      modifies this
      ensures Valid() && attempts == old(attempts) && counter == old(counter) && firstFailure == old(firstFailure)
      ensures iwc == Some(Configure(old(iwc)))
      ensures match (dirOpened, writerOpened)
        case (Failure(e), _) => r == Fail(WrapWith(OpenFailurePrefix + localDiskLocation, e)) && dlso == old(dlso)
        case (_, Failure(e)) => r == Fail(WrapWith(OpenFailurePrefix + localDiskLocation, e)) && dlso == old(dlso)
        case (Success(dir), Success(iw)) =>
          r == Pass && dlso == Some(DocumentLoaderSupplierObj(dir, Configure(old(iwc)), iw))
    {
      iwc := Some(Configure(iwc));
      if dirOpened.Failure? {
        return Fail(WrapWith(OpenFailurePrefix + localDiskLocation, dirOpened.error));
      }
      if writerOpened.Failure? {
        return Fail(WrapWith(OpenFailurePrefix + localDiskLocation, writerOpened.error));
      }
      dlso := Some(DocumentLoaderSupplierObj(dirOpened.value, iwc.value, writerOpened.value));
      return Pass;
    }

    /** check(): the session must be set. */
    method Check() returns (r: Outcome<Exception>)
      ensures r == if dlso.Some? then Pass else Fail(Raise(NotInitialised))
    {
      if dlso.None? {
        return Fail(Raise(NotInitialised));
      }
      return Pass;
    }

    /** preDestroy: close the writer, then the directory; the first failure
        is wrapped and thrown at once, the directory is then not closed and
        the session is kept, so only a clean close drops it. The writer's
        close is asked for first: `dirClosed` is only consulted when it
        passes. */
    method PreDestroy(writerClosed: Outcome<Exception>, dirClosed: Outcome<Exception>) returns (r: Outcome<Exception>)
      requires Valid()
      modifies this
      ensures Valid() && attempts == old(attempts) && counter == old(counter) && firstFailure == old(firstFailure)
      ensures iwc == old(iwc)
      ensures old(dlso).None? ==> r == Fail(Raise(NotInitialised)) && dlso.None?
      ensures old(dlso).Some? && writerClosed.Fail? ==> r == Fail(WrapWith(CloseFailure, writerClosed.error)) && dlso == old(dlso)
      ensures old(dlso).Some? && writerClosed.Pass? && dirClosed.Fail? ==>
        r == Fail(WrapWith(CloseFailure, dirClosed.error)) && dlso == old(dlso)
      ensures old(dlso).Some? && writerClosed.Pass? && dirClosed.Pass? ==> r == Pass && dlso.None?
      ensures r.Pass? <==> old(dlso).Some? && dlso.None?
    {
      var checked := Check();
      if checked.Fail? {
        return checked;
      }
      if writerClosed.Fail? {
        return Fail(WrapWith(CloseFailure, writerClosed.error));
      }
      if dirClosed.Fail? {
        return Fail(WrapWith(CloseFailure, dirClosed.error));
      }
      dlso := None;
      return Pass;
    }

    /** supplier() followed by get(): the one shared session, or the check's
        exception. */
    method Supplier() returns (r: Result<DocumentLoaderSupplierObj, Exception>)
      ensures dlso.Some? ==> r == Success(dlso.value)
      ensures dlso.None? ==> r == Failure(Raise(NotInitialised))
    {
      var checked := Check();
      if checked.Fail? {
        return Failure(checked.error);
      }
      return Success(dlso.value);
    }

    /** The accumulator: an accepted document adds one to the counter, a
        refused one is recorded only when no document is recorded yet, and
        nothing is thrown. */
    method Accumulate(t: DocumentLoaderSupplierObj, u: TransformedDocument, added: Outcome<Exception>)
      requires Valid()
      modifies this
      ensures Valid() && attempts == old(attempts) + [Attempt(u, added)]
      ensures dlso == old(dlso) && iwc == old(iwc)
      ensures added.Pass? ==> counter == old(counter) + 1 && firstFailure == old(firstFailure)
      ensures added.Fail? ==> counter == old(counter)
      ensures added.Fail? ==> firstFailure == if old(firstFailure).None? then Some(u) else old(firstFailure)
    {
      FirstFailingAppend(attempts, Attempt(u, added));
      var all := attempts + [Attempt(u, added)];
      assert all[..|all| - 1] == attempts;
      if FirstFailing(attempts).Some? {
        assert all[FirstFailing(attempts).value] == attempts[FirstFailing(attempts).value];
      }
      attempts := all;
      if added.Pass? {
        counter := counter + 1;
      } else if firstFailure.None? {
        firstFailure := Some(u);
      }
    }

    /** The finisher: commit, then the number of accepted documents; a
        commit failure is wrapped and thrown. */
    method Finish(t: DocumentLoaderSupplierObj, committed: Outcome<Exception>) returns (r: Result<int, Exception>)
      requires Valid()
      ensures committed.Fail? ==> r == Failure(WrapWith(CommitFailure, committed.error))
      ensures committed.Pass? ==> r == Success(Successes(attempts))
    {
      if committed.Fail? {
        return Failure(WrapWith(CommitFailure, committed.error));
      }
      return Success(counter);
    }

    /** stream.collect(collector) over the documents, the writer answering
        each addDocument in turn. */
    method Collect(docs: seq<TransformedDocument>, answers: seq<Outcome<Exception>>, committed: Outcome<Exception>)
      returns (r: Result<int, Exception>)
      requires Valid() && |answers| == |docs|
      modifies this
      ensures Valid() && dlso == old(dlso)
      ensures old(dlso).None? ==> r == Failure(Raise(NotInitialised)) && attempts == old(attempts)
      ensures old(dlso).Some? ==> attempts == old(attempts) + Attempts(docs, answers)
      ensures old(dlso).Some? && committed.Fail? ==> r == Failure(WrapWith(CommitFailure, committed.error))
      ensures old(dlso).Some? && committed.Pass? ==> r == Success(Successes(attempts))
    {
      var session := Supplier();
      if session.Failure? {
        return Failure(session.error);
      }
      ghost var start := attempts;
      for i := 0 to |docs|
        invariant Valid() && dlso == old(dlso)
        invariant attempts == start + Attempts(docs[..i], answers[..i])
      {
        Accumulate(session.value, docs[i], answers[i]);
        assert Attempts(docs[..i + 1], answers[..i + 1]) == Attempts(docs[..i], answers[..i]) + [Attempt(docs[i], answers[i])];
      }
      assert docs[..|docs|] == docs && answers[..|answers|] == answers;
      r := Finish(session.value, committed);
    }
  }
}
