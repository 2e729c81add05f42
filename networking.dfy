/**
  `handle_request`: turns the outcome of a search into the status and payload
  of the response sent back to the client.
*/
module Networking {
  import opened SearchOutcome

  /** `proto::file_search_status`. */
  datatype FileSearchStatus = NotFound | Found | Error

  /** `proto::file_seach_response` as `handle_request` fills it in. */
  datatype Response = Response(status: FileSearchStatus, payload: string)

  const ROOT_NOT_FOUND_PREFIX: string := "Specified root directory not found: "
  const INTERNAL_ERROR: string := "Internal error"

  /**
    The try block sets the status from the returned path; the two catch
    clauses are tried in order, `root_dir_not_found` before the generic
    `std::exception`. The payload keeps its default, empty value when
    nothing is found.
  */
  function HandleRequest(outcome: Outcome): (response: Response)
    ensures outcome.IsNotFound() ==> response == Response(NotFound, [])
    ensures outcome.IsFound() ==> response == Response(Found, outcome.path)
    ensures outcome.IsRootMissing()
      ==> response == Response(Error, ROOT_NOT_FOUND_PREFIX + outcome.ex.what)
    ensures outcome.IsOtherFailure() ==> response == Response(Error, INTERNAL_ERROR)
  {
    match outcome
    case Returned(path) =>
      if path == [] then Response(NotFound, []) else Response(Found, path)
    case Threw(ex) =>
      if ex.RootDirNotFound? then Response(Error, ROOT_NOT_FOUND_PREFIX + ex.what)
      else Response(Error, INTERNAL_ERROR)
  }

  /** Each status comes from exactly one kind of outcome. */
  lemma StatusClassifiesOutcome(outcome: Outcome)
    ensures HandleRequest(outcome).status == Found <==> outcome.IsFound()
    ensures HandleRequest(outcome).status == NotFound <==> outcome.IsNotFound()
    ensures HandleRequest(outcome).status == Error <==> outcome.Threw?
  {
  }

  /**
    Unless the status is `Error`, the payload is the path the search
    returned: the path itself for `Found`, empty for `NotFound`.
  */
  lemma FoundPayloadIsPath(outcome: Outcome)
    ensures HandleRequest(outcome).status != Error ==> HandleRequest(outcome).payload == outcome.path
  {
  }

  /**
    A generic failure never shows its cause: two such failures with any
    two messages produce the same response.
  */
  lemma InternalErrorHidesCause(what1: string, what2: string)
    ensures HandleRequest(Threw(OtherException(what1))) == HandleRequest(Threw(OtherException(what2)))
    ensures HandleRequest(Threw(OtherException(what1))).payload == INTERNAL_ERROR
  {
  }

  /**
    A missing root is reported with its own message, which ends with the
    exception's text and can never be mistaken for the generic one.
  */
  lemma RootNotFoundIsDistinguished(what: string)
    ensures var p := HandleRequest(Threw(RootDirNotFound(what))).payload;
      && p[..|ROOT_NOT_FOUND_PREFIX|] == ROOT_NOT_FOUND_PREFIX
      && p[|ROOT_NOT_FOUND_PREFIX|..] == what
      && p != INTERNAL_ERROR
  {
    var p := HandleRequest(Threw(RootDirNotFound(what))).payload;
    assert |p| >= |ROOT_NOT_FOUND_PREFIX| > |INTERNAL_ERROR|;
  }
}
