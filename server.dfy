/**
  The server's `main`: the process exit code it returns for the outcome of
  its one search.
*/
module Server {
  import opened SearchOutcome
  import Networking

  /**
    0 when a file was found, 1 when the search came back empty, 2 when the
    root directory is missing (the first catch clause) and -1 for any other
    exception.
  */
  function ExitCode(outcome: Outcome): (code: int)
    ensures code == 0 || code == 1 || code == 2 || code == -1
    ensures code == 0 <==> outcome.IsFound()
    ensures code == 1 <==> outcome.IsNotFound()
    ensures code == 2 <==> outcome.IsRootMissing()
    ensures code == -1 <==> outcome.IsOtherFailure()
  {
    match outcome
    case Returned(path) => if path == [] then 1 else 0
    case Threw(ex) => if ex.RootDirNotFound? then 2 else -1
  }

  /**
    The exit code and the response status of `handle_request` classify every
    outcome the same way: success, not found, or failure.
  */
  lemma ExitCodeAgreesWithStatus(outcome: Outcome)
    ensures ExitCode(outcome) == 0 <==> Networking.HandleRequest(outcome).status == Networking.Found
    ensures ExitCode(outcome) == 1 <==> Networking.HandleRequest(outcome).status == Networking.NotFound
    ensures ExitCode(outcome) in {2, -1} <==> Networking.HandleRequest(outcome).status == Networking.Error
  {
  }
}
