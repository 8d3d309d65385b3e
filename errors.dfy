/** The exceptions the core throws or lets through, as values. Both
    LuceneTutorialException classes of the repository (the one of the current
    packages and the one of the older ingest package) have the same four
    constructors and are modelled by TutorialException. */
module Errors {
  import opened Wrappers

  datatype Exception =
    /** An exception raised by a collaborator the model does not contain
        (zip and file I/O, Lucene's writer, reader and searcher); only its
        identity matters. */
    | Thrown(id: nat)
    /** LuceneTutorialException(message, cause); the cause-only constructor
        leaves the message out. */
    | TutorialException(message: Option<string>, cause: Option<Exception>)
    | NoSuchElement
    | NumberFormat(input: string)
    | IllegalArgument
    | IndexOutOfBounds
    | NullPointer
    | Arithmetic

  /** new LuceneTutorialException(cause) */
  function Wrap(cause: Exception): Exception {
    TutorialException(None, Some(cause))
  }

  /** new LuceneTutorialException(message, cause) */
  function WrapWith(message: string, cause: Exception): Exception {
    TutorialException(Some(message), Some(cause))
  }

  /** new LuceneTutorialException(message) */
  function Raise(message: string): Exception {
    TutorialException(Some(message), None)
  }

  /** The message of every lifecycle check in the core. */
  const NotInitialised: string := "Must call 'postConstruct' before using."
}
