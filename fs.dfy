/**
  `fs::file_exisits`: does the root directory of a request hold an entry
  with the requested name? Only the root's own entries are looked at.

  The directory is an entry stream, as `opendir`/`readdir` give it: a
  sequence of names read one at a time, after which the stream either ends
  cleanly or reports a read error.
*/
module FileSystem {
  import opened Common

  /** What one `readdir` call yields. */
  datatype ReadResult = Entry(name: Bytes) | EndOfStream | ReadError

  /** An open directory stream (`DIR*`). */
  class DirStream {
    /** The names the stream yields, in order. */
    const entries: seq<Bytes>
    /** Whether the stream reports an error instead of ending cleanly. */
    const failsAtEnd: bool
    /** How many entries have been read so far. */
    var pos: nat

    ghost predicate Valid()
      reads this
    {
      pos <= |entries|
    }

    /** A freshly opened stream, positioned before its first entry. */
    constructor Open(entries: seq<Bytes>, failsAtEnd: bool)
      ensures Valid() && pos == 0
      ensures this.entries == entries && this.failsAtEnd == failsAtEnd
    {
      this.entries := entries;
      this.failsAtEnd := failsAtEnd;
      pos := 0;
    }

    /** `readdir`: the next entry, or how the stream ended. */
    method ReadDir() returns (r: ReadResult)
      requires Valid()
      modifies this
      ensures Valid()
      ensures old(pos) < |entries| ==> r == Entry(entries[old(pos)]) && pos == old(pos) + 1
      ensures old(pos) == |entries| ==> pos == old(pos)
      ensures old(pos) == |entries| ==> r == if failsAtEnd then ReadError else EndOfStream
    {
      if pos < |entries| {
        r := Entry(entries[pos]);
        pos := pos + 1;
      } else if failsAtEnd {
        r := ReadError;
      } else {
        r := EndOfStream;
      }
    }
  }

  /** The exceptions `file_exisits` throws. */
  datatype FsError =
    | DirNotFound(path: Bytes)   // `fs::dir_not_found`: the root cannot be opened
    | RuntimeError(what: string) // `std::runtime_error` on a failed read

  const READ_ERROR_MESSAGE: string := "Error while reading the directory entry"

  /**
    What scanning `names` for `filename` yields: the specification of
    `FileExists` once the directory is open.
  */
  function Scan(names: seq<Bytes>, failsAtEnd: bool, filename: Bytes): Result<bool, FsError>
  {
    if names == [] then
      if failsAtEnd then Failure(RuntimeError(READ_ERROR_MESSAGE)) else Success(false)
    else if names[0] == filename then Success(true)
    else Scan(names[1..], failsAtEnd, filename)
  }

  /** The index of the first entry named `filename`, or `|names|` when there is none. */
  function FirstMatch(names: seq<Bytes>, filename: Bytes): (k: nat)
    ensures k <= |names|
    ensures k < |names| ==> names[k] == filename
    ensures forall j :: 0 <= j < k ==> names[j] != filename
  {
    if names == [] then 0
    else if names[0] == filename then 0
    else 1 + FirstMatch(names[1..], filename)
  }

  /**
    The scan answers `true` exactly when some entry has the name, `false`
    exactly when none has and the stream ends cleanly, and throws a
    runtime error exactly when none has and the stream fails.
  */
  lemma {:induction false} ScanCharacterized(names: seq<Bytes>, failsAtEnd: bool, filename: Bytes)
    ensures Scan(names, failsAtEnd, filename) == Success(true) <==> filename in names
    ensures Scan(names, failsAtEnd, filename) == Success(false) <==> filename !in names && !failsAtEnd
    ensures Scan(names, failsAtEnd, filename) == Failure(RuntimeError(READ_ERROR_MESSAGE))
      <==> filename !in names && failsAtEnd
  {
    if names != [] && names[0] != filename {
      ScanCharacterized(names[1..], failsAtEnd, filename);
      assert names == [names[0]] + names[1..];
    }
  }

  /**
    Entries after the first match are never looked at: changing them, or
    how the stream ends, does not change the answer.
  */
  lemma {:induction false} ScanStopsAtFirstMatch(names: seq<Bytes>, later: seq<Bytes>, failsAtEnd: bool, otherEnd: bool, filename: Bytes)
    requires filename in names
    ensures Scan(names + later, otherEnd, filename) == Scan(names, failsAtEnd, filename)
  {
    if names[0] != filename {
      assert (names + later)[1..] == names[1..] + later;
      ScanStopsAtFirstMatch(names[1..], later, failsAtEnd, otherEnd, filename);
    }
  }

  /** Scanning on from entry `k` gives the same answer once the first `k` entries do not match. */
  lemma {:induction false} ScanSkipsMismatches(names: seq<Bytes>, k: nat, failsAtEnd: bool, filename: Bytes)
    requires k <= |names|
    requires forall j :: 0 <= j < k ==> names[j] != filename
    ensures Scan(names[k..], failsAtEnd, filename) == Scan(names, failsAtEnd, filename)
  {
    if k > 0 {
      assert names[1..][k - 1..] == names[k..];
      ScanSkipsMismatches(names[1..], k - 1, failsAtEnd, filename);
    }
  }

  /**
    `file_exisits`. `dir` is what `opendir(req.root_path)` returned: `null`
    when the root cannot be opened. The loop reads entries until one is named
    `req.filename`, the stream ends, or a read fails.
  */
  method FileExists(req: Request, dir: DirStream?) returns (r: Result<bool, FsError>)
    requires dir != null ==> dir.Valid() && dir.pos == 0
    modifies dir
    ensures dir == null ==> r == Failure(DirNotFound(req.rootPath))
    ensures dir != null ==> dir.Valid()
    ensures dir != null ==> r == Scan(dir.entries, dir.failsAtEnd, req.filename)
    ensures dir != null && r == Success(true) ==> dir.pos == FirstMatch(dir.entries, req.filename) + 1
    ensures dir != null && r != Success(true) ==> dir.pos == |dir.entries|
  {
    if dir == null {
      return Failure(DirNotFound(req.rootPath));
    }
    while true
      invariant dir.Valid()
      invariant forall j :: 0 <= j < dir.pos ==> dir.entries[j] != req.filename
      decreases |dir.entries| - dir.pos
    {
      var entry := dir.ReadDir();
      if entry.ReadError? {
        ScanSkipsMismatches(dir.entries, dir.pos, dir.failsAtEnd, req.filename);
        return Failure(RuntimeError(READ_ERROR_MESSAGE));
      }
      if entry.EndOfStream? {
        break;
      }
      if entry.name == req.filename {
        ScanSkipsMismatches(dir.entries, dir.pos - 1, dir.failsAtEnd, req.filename);
        return Success(true);
      }
    }
    ScanSkipsMismatches(dir.entries, dir.pos, dir.failsAtEnd, req.filename);
    return Success(false);
  }
}
