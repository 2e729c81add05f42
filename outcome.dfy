/**
  What a file search hands back to its caller: the path it found (empty when
  nothing was found), or the exception it threw. Both `handle_request` and
  the server's `main` branch on it.
*/
module SearchOutcome {

  /** The exceptions a search can throw, all derived from `std::exception`. */
  datatype Exception =
    | RootDirNotFound(what: string)   // `proto::root_dir_not_found`
    | OtherException(what: string)    // any other `std::exception`

  datatype Outcome =
    | Returned(path: string)
    | Threw(ex: Exception)
  {
    /** The search returned a non-empty path. */
    predicate IsFound() { Returned? && path != [] }

    /** The search returned the empty path: the file is not there. */
    predicate IsNotFound() { Returned? && path == [] }

    /** The search failed because its root directory does not exist. */
    predicate IsRootMissing() { Threw? && ex.RootDirNotFound? }

    /** The search failed for any other reason. */
    predicate IsOtherFailure() { Threw? && ex.OtherException? }
  }
}
