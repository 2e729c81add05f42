/**
  The client: `rtrim`, which strips one trailing character, and the loop of
  `main` that turns typed lines into requests.
*/
module Client {
  import opened Common

  /** `'\n'`. */
  const NEWLINE: byte := 0x0A

  /** The command that ends the client: the bytes of `"exit"`. */
  const EXIT: Bytes := [0x65, 0x78, 0x69, 0x74]

  /** `s` with every trailing `c` removed: the specification of `RTrim`. */
  function RTrimmed(s: Bytes, c: byte): Bytes
  {
    if s != [] && s[|s| - 1] == c then RTrimmed(s[..|s| - 1], c) else s
  }

  /**
    The trimmed string is a prefix of the original, what was removed is all
    `c`, and the result is empty or ends in something other than `c`.
  */
  lemma {:induction false} RTrimmedCharacterized(s: Bytes, c: byte)
    ensures var t := RTrimmed(s, c);
      && |t| <= |s| && t == s[..|t|]
      && (forall i :: |t| <= i < |s| ==> s[i] == c)
      && (t == [] || t[|t| - 1] != c)
  {
    if s != [] && s[|s| - 1] == c {
      RTrimmedCharacterized(s[..|s| - 1], c);
    }
  }

  /** Trimming twice is trimming once, and a string not ending in `c` is left alone. */
  lemma RTrimmedIdempotent(s: Bytes, c: byte)
    ensures RTrimmed(RTrimmed(s, c), c) == RTrimmed(s, c)
    ensures (s == [] || s[|s| - 1] != c) ==> RTrimmed(s, c) == s
  {
    RTrimmedCharacterized(s, c);
  }

  /** `rtrim`: pops the last character while it is `c`. */
  method RTrim(str: Bytes, c: byte) returns (trimmed: Bytes)
    ensures trimmed == RTrimmed(str, c)
    ensures |trimmed| <= |str| && trimmed == str[..|trimmed|]
    ensures forall i :: |trimmed| <= i < |str| ==> str[i] == c
    ensures trimmed == [] || trimmed[|trimmed| - 1] != c
  {
    trimmed := str;
    while trimmed != [] && trimmed[|trimmed| - 1] == c
      invariant RTrimmed(trimmed, c) == RTrimmed(str, c)
      decreases |trimmed|
    {
      trimmed := trimmed[..|trimmed| - 1];
    }
    RTrimmedCharacterized(str, c);
  }

  /**
    The C string held in a `char` buffer: the bytes before its first NUL,
    as `std::string`'s constructor from a `const char*` takes them.
  */
  function UpToNul(s: Bytes): (r: Bytes)
    ensures |r| <= |s| && r == s[..|r|]
    ensures 0 !in r
    ensures |r| < |s| ==> s[|r|] == 0
  {
    if s == [] || s[0] == 0 then [] else [s[0]] + UpToNul(s[1..])
  }

  /**
    `read_input` once `fgets` has filled its buffer with `line`: the line is
    cut at its first NUL and its trailing newlines are dropped.
  */
  function ReadInput(line: Bytes): (input: Bytes)
    ensures |input| <= |line| && input == line[..|input|]
    ensures 0 !in input
    ensures input == [] || input[|input| - 1] != NEWLINE
    ensures forall i :: |input| <= i < |UpToNul(line)| ==> line[i] == NEWLINE
  {
    var cString := UpToNul(line);
    RTrimmedCharacterized(cString, NEWLINE);
    RTrimmed(cString, NEWLINE)
  }

  /** What the loop does with a line typed at the filename prompt. */
  datatype FilenameStep = Quit | Rejected(req: Request) | Accepted(req: Request)

  /**
    "exit" ends the loop, checked before emptiness; an empty filename is
    refused and leaves the request as it was; anything else becomes the
    filename verbatim.
  */
  function TakeFilename(req: Request, input: Bytes): (step: FilenameStep)
    ensures step.Quit? <==> input == EXIT
    ensures step.Rejected? <==> input == []
    ensures step.Rejected? ==> step.req == req
    ensures step.Accepted? ==> step.req == req.(filename := input) && input != [] && input != EXIT
  {
    if input == EXIT then Quit
    else if input == [] then Rejected(req)
    else Accepted(req.(filename := input))
  }

  /** The root path is taken verbatim, even when it is empty. */
  function TakeRootPath(req: Request, input: Bytes): (r: Request)
    ensures r.rootPath == input && r.filename == req.filename
  {
    req.(rootPath := input)
  }

  /**
    The requests a session sends, reading `lines` from index `i` on with
    `req` as the current request, and whether it ended on "exit": the
    specification of `RunClient`.
  */
  function Session(lines: seq<Bytes>, i: nat, req: Request): (seq<Request>, bool)
    requires i <= |lines|
    decreases |lines| - i
  {
    if i == |lines| then ([], false)
    else
      match TakeFilename(req, ReadInput(lines[i]))
      case Quit => ([], true)
      case Rejected(req') => Session(lines, i + 1, req')
      case Accepted(req') =>
        if i + 1 == |lines| then ([], false)
        else
          var sent := TakeRootPath(req', ReadInput(lines[i + 1]));
          var (rest, exited) := Session(lines, i + 2, sent);
          ([sent] + rest, exited)
  }

  /**
    The shape of a request the client sends: a non-empty filename that is not
    "exit", no NUL byte in either field, and no trailing newline.
  */
  predicate WellFormedSent(r: Request)
  {
    r.filename != [] && r.filename != EXIT && r.filename[|r.filename| - 1] != NEWLINE
    && (r.rootPath == [] || r.rootPath[|r.rootPath| - 1] != NEWLINE)
    && 0 !in r.filename && 0 !in r.rootPath
  }

  /** Every request a session sends is well formed. */
  lemma {:induction false} SessionSendsWellFormed(lines: seq<Bytes>, i: nat, req: Request)
    requires i <= |lines|
    ensures forall r :: r in Session(lines, i, req).0 ==> WellFormedSent(r)
    decreases |lines| - i
  {
    if i < |lines| {
      var input := ReadInput(lines[i]);
      match TakeFilename(req, input)
      case Quit =>
      case Rejected(req') => SessionSendsWellFormed(lines, i + 1, req');
      case Accepted(req') =>
        if i + 1 < |lines| {
          var sent := TakeRootPath(req', ReadInput(lines[i + 1]));
          SessionSendsWellFormed(lines, i + 2, sent);
        }
    }
  }

  /**
    The loop of `main` over the lines the user types. Each accepted filename
    and the root path typed after it are sent as one request; "exit" ends the
    session. The session also ends when the input runs out. Every send is
    taken to succeed.
  */
  method RunClient(lines: seq<Bytes>) returns (sent: seq<Request>, exited: bool)
    ensures (sent, exited) == Session(lines, 0, Request([], []))
    ensures forall r :: r in sent ==> WellFormedSent(r)
  {
    SessionSendsWellFormed(lines, 0, Request([], []));
    var req := Request([], []);
    var i := 0;
    sent, exited := [], false;
    while i < |lines|
      invariant i <= |lines|
      invariant Session(lines, 0, Request([], [])).0 == sent + Session(lines, i, req).0
      invariant Session(lines, 0, Request([], [])).1 == Session(lines, i, req).1
      invariant !exited
      decreases |lines| - i
    {
      ghost var (i0, req0, sent0) := (i, req, sent);
      var input := RTrim(UpToNul(lines[i]), NEWLINE);
      i := i + 1;
      if input == EXIT {
        assert Session(lines, i0, req0) == ([], true);
        assert sent + [] == sent;
        exited := true;
        return;
      }
      if input == [] {
        continue;
      }
      req := req.(filename := input);

      if i == |lines| {
        assert Session(lines, i0, req0) == ([], false);
        assert sent + [] == sent;
        return;
      }
      input := RTrim(UpToNul(lines[i]), NEWLINE);
      i := i + 1;
      req := req.(rootPath := input);
      sent := sent + [req];
      assert Session(lines, i0, req0).0 == [req] + Session(lines, i, req).0;
      assert sent + Session(lines, i, req).0 == sent0 + ([req] + Session(lines, i, req).0);
    }
    assert Session(lines, i, req) == ([], false);
    assert sent + [] == sent;
  }
}
