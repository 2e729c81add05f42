# rfinder: file-search request codec, outcome handling and directory scan

rfinder lets a client ask a server whether a file of a given name exists under
a root directory. This project models its sequential core in Dafny:

- **Request wire codec** (`protocol.cpp`): `serialize` writes a request as
  `total | filename_len | filename | root_path_len | root_path`, every length a
  big-endian `uint32_t`. `parse_from_buffer` reads it back. The declared total is
  `12 + |filename| + |root_path|`, so it counts the 4-byte total field too.
  `Serialize` and `ParseFromBuffer` build and walk the buffer step by step.
  `Frame` and `Parse` are their specifications. Lengths wider than 32 bits are
  truncated explicitly (`ToU32`), as the C++ conversion to `uint32_t` does.
  `parse_from_buffer` makes only one check. Every other read in it is unchecked.
  In the model, each such read that would leave the buffer returns an explicit
  `ReadOutOfBounds` failure.
- **Outcome to response** (`networking.cpp`, `handle_request`): a search either
  returns a path (empty means "not found") or throws. Root-not-found is caught
  before any other `std::exception`. The result is a status (`NotFound`, `Found`,
  `Error`) plus a payload.
- **Outcome to exit code** (`server.cpp`): the same classification gives exit
  codes 0, 1, 2 and -1.
- **Single-directory scan** (`fs.cpp`, `fs::file_exisits`): `opendir` either
  fails (`null`) or gives a `DirStream`. That stream yields names and then
  either ends or reports a read error. The loop returns at the first matching
  name and reads nothing further. Subdirectories are never entered.
- **Client input** (`client_main.cpp`): `rtrim` pops trailing copies of one
  character. The loop of `main` stops on `exit`, refuses an empty filename, and
  otherwise sends the filename together with the root path typed next, both
  verbatim.

Every C++ `std::string` the codec, the scan or the client handles is a byte
string (`seq<byte>`). The payloads of `handle_request` are never serialized, so
they are Dafny `string`s.

Four facts about the code shape the model:
- The declared total counts its own 4-byte field.
- `parse_from_buffer` reads the first 4 bytes before any check.
- The response statuses are `NOT_FOUND`, `FOUND` and `ERROR`.
- The only directory search in the code is the one-level scan above.

## Model

| member | source | states |
|---|---|---|
| `Protocol.ToU32` | protocol.cpp:12-24 | the `size_t` to `uint32_t` conversion wraps around: the result is below 2^32, differs from the input by a multiple of 2^32, never exceeds it, and equals it when it already fits |
| `Protocol.DecodeEncodeBE32` | protocol.cpp:15-17 | reading back the four network-order bytes that `htonl` wrote gives the original 32-bit value |
| `Protocol.EncodeDecodeBE32` | protocol.cpp:38 | every four bytes are the network-order encoding of the value `ntohl` reads from them |
| `Protocol.FrameLayout` | protocol.cpp:10-29 | a frame is exactly 12 + \|filename\| + \|root_path\| bytes; bytes 0-4 hold that length, which counts the total field itself; bytes 4-8 hold the filename length; the filename follows verbatim; then come the root-path length and the root path verbatim, with nothing after it |
| `Protocol.Serialize` | protocol.cpp:10-30 | the appended buffer is the frame of the request, of length 12 + \|filename\| + \|root_path\| |
| `Protocol.ParseFromBuffer` | protocol.cpp:32-53 | the cursor-driven parse gives the result of `Parse`, and every index it uses stays inside the buffer; a parsed request fits inside `buffer_size` |
| `Protocol.ParseRoundTrip` | protocol.cpp:10-53 | parsing the serialized frame of a request whose filename and root-path lengths each fit in 32 bits (the declared total may wrap), with `buffer_size` equal to the frame length, gives back the request |
| `Protocol.InvalidBufferSizeExactly` | protocol.cpp:38-43 | once the declared total is readable, parsing throws "Invalid buffer size" if and only if that total exceeds `buffer_size` |
| `Protocol.ParseFields` | protocol.cpp:45-51 | when `buffer_size` ≥ 8, the total is within `buffer_size`, 12 + flen ≤ `buffer_size` and 12 + flen + rlen ≤ `buffer_size`, the filename is bytes [8, 8+flen) and the root path is bytes [12+flen, 12+flen+rlen) |
| `Protocol.ParseIgnoresTrailingBytes` | protocol.cpp:45-52 | appending any bytes to a parsable buffer, and growing `buffer_size` to match, leaves the parsed request unchanged |
| `Protocol.ParseIgnoresDeclaredTotal` | protocol.cpp:38-52 | the declared total is never compared with the field lengths: replacing it with any value within `buffer_size` gives the same result |
| `Protocol.TruncatedFrameRejected` | protocol.cpp:38-43 | a frame cut short at any byte is never accepted; once its total is readable it is rejected as "Invalid buffer size" |
| `Protocol.SizeCheckMissesFieldOverrun` | protocol.cpp:38-47 | an 8-byte buffer that declares a total of 8 passes the size check, then announces a 100-byte filename and reads past the end; a 2-byte buffer is overrun already by the read of the total |
| `Protocol.ParseChecked` | protocol.cpp:32-53 | the bounds-checked decoder fails only with "Invalid buffer size", and any request it returns lies within `buffer_size` |
| `Protocol.ParseCheckedAgrees` | protocol.cpp:38-51 | the checked decoder equals the source's parse wherever that parse stays in bounds, and rejects exactly where the source would overrun |
| `Protocol.ParseCheckedRoundTrip` | protocol.cpp:10-53 | the checked decoder keeps the round trip and rejects every truncated frame |
| `Networking.HandleRequest` | networking.cpp:4-23 | empty path → `NotFound` with an empty payload; non-empty path → `Found` with the path; root-not-found → `Error` with "Specified root directory not found: " followed by the message; any other exception → `Error` with "Internal error" |
| `Networking.StatusClassifiesOutcome` | networking.cpp:7-20 | each status comes from exactly one kind of outcome: `Found` if and only if a non-empty path, `NotFound` if and only if an empty path, `Error` if and only if an exception |
| `Networking.FoundPayloadIsPath` | networking.cpp:8-12 | unless the status is `Error`, the payload is exactly the returned path, empty for `NotFound` |
| `Networking.InternalErrorHidesCause` | networking.cpp:17-20 | two generic exceptions with any two messages give the same response, whose payload is "Internal error", so the cause never reaches the client |
| `Networking.RootNotFoundIsDistinguished` | networking.cpp:14-20 | a root-not-found payload is the fixed prefix followed by the exception message, and is never the generic "Internal error" |
| `Server.ExitCode` | server.cpp:12-26 | the exit code is one of 0, 1, 2, -1: 0 if and only if a non-empty path, 1 if and only if an empty path, 2 if and only if root-not-found (matched first), -1 if and only if any other exception |
| `Server.ExitCodeAgreesWithStatus` | server.cpp:12-26 | exit code 0 goes with `Found`, 1 with `NotFound`, and 2 or -1 with `Error`, each in both directions |
| `FileSystem.DirStream.Open` | fs.cpp:29 | a newly opened directory stream stands before its first entry |
| `FileSystem.DirStream.ReadDir` | fs.cpp:37-41 | `readdir` yields the next entry and advances; at the end it yields end-of-stream, or a read error, and stays put |
| `FileSystem.FileExists` | fs.cpp:28-47 | a root that cannot be opened raises `dir_not_found(root_path)` before anything is read; otherwise the result is `Scan` of the entries, and the stream stops just after the first match, or at the end when there is none |
| `FileSystem.FirstMatch` | fs.cpp:36-45 | the index it returns holds the filename when it is inside the entries, and no earlier entry does |
| `FileSystem.ScanCharacterized` | fs.cpp:36-46 | `true` if and only if some entry has the name; `false` if and only if none has and the stream ends cleanly; "Error while reading the directory entry" if and only if none has and the read fails |
| `FileSystem.ScanStopsAtFirstMatch` | fs.cpp:42-44 | once an entry matches, later entries and the way the stream ends do not change the answer |
| `FileSystem.ScanSkipsMismatches` | fs.cpp:36-45 | scanning on from the first k entries, when none of them matches, gives the same answer as the whole scan |
| `Client.RTrim` | client_main.cpp:12-16 | the popping loop leaves a prefix of the input; everything it removed equals `c`; the result is empty or does not end in `c` |
| `Client.RTrimmedCharacterized` | client_main.cpp:12-16 | the trimmed string is a prefix of the original, the removed suffix is all `c`, and the result is empty or ends in something else |
| `Client.RTrimmedIdempotent` | client_main.cpp:12-16 | trimming twice equals trimming once, and a string that does not end in `c` is left unchanged |
| `Client.UpToNul` | client_main.cpp:28 | the C string in a buffer is the prefix before the first NUL byte: it holds no NUL, and the byte after it, if any, is NUL |
| `Client.ReadInput` | client_main.cpp:28-31 | the line `read_input` returns is a prefix of what `fgets` delivered, holds no NUL byte and does not end in a newline, and every byte removed before the first NUL is a newline |
| `Client.TakeFilename` | client_main.cpp:82-90 | "exit" quits, and is tested before emptiness; an empty input is refused and leaves the request unchanged; any other input becomes the filename verbatim |
| `Client.TakeRootPath` | client_main.cpp:92-93 | the root path is taken verbatim, even when empty, and the filename is kept |
| `Client.SessionSendsWellFormed` | client_main.cpp:81-100 | every request a session sends has a non-empty filename that is not "exit", and neither field holds a NUL byte or ends in a newline |
| `Client.RunClient` | client_main.cpp:81-100 | if every send succeeds, the loop sends exactly the requests of `Session`, each of them well formed, and reports whether it stopped on "exit" |

## Findings

| source | as written | input that shows it | evidently intended | confidence | as-written member | corrected member |
|---|---|---|---|---|---|---|
| protocol.cpp:38-51 | only the declared total is compared with `buffer_size`, and only after it has been read; the filename and root-path lengths are used without a check | the 8 bytes `00 00 00 08 00 00 00 64` with `buffer_size` 8 pass the check, then a 100-byte filename is copied from past the end; a buffer of 2 bytes is overrun by the read of the total itself | every length is checked against `buffer_size`, and a frame that does not fit, including one shorter than 4 bytes, is rejected as "Invalid buffer size" | not executed; high (the reads at lines 38 and 45-51 have no guard) | `Protocol.SizeCheckMissesFieldOverrun` | `Protocol.ParseChecked` |

## Left out

- `threading.cpp` (the heartbeat thread, its mutex-guarded completion flag and the 500 ms sleep) is not part of this model. It is concurrency with no sequential contract. A search is modelled only by its `Outcome`.
- `fs::find_file` is declared in `fs.hpp` but defined in none of the files shown. It is not part of this model, and the model does not invent a search. Its result enters `HandleRequest` and `ExitCode` as an `Outcome` value.
- Socket code is not modelled: `unix_send_request`, the `printf` demo in `net::listen`, and all of `server_main.cpp` (port parsing with `atoi`, and a server type declared nowhere). `RunClient` returns the requests it would send.
- `read_input` is not modelled as I/O. Lines arrive already read. `ReadInput` keeps the cut at the first NUL byte and the newline trimming. The 255-byte `fgets` chunking is not modelled. Neither is the endless retry when `fgets` fails: `RunClient` ends when its input runs out.
- `Client.RunClient` assumes every send succeeds. In the source, `unix_send_request` throws when the socket, the connection or the send fails (client_main.cpp:46, 55, 60). Nothing in `main` catches it, so the first failed send ends the client, and the requests after it are never sent.
- Writes to stdout and stderr are not modelled, including the log line in `handle_request` that records the cause of an internal error.
- `Protocol.Parse`: a read the source performs past the buffer is undefined behaviour in C++. The model reports it as `ReadOutOfBounds` instead of reading unrelated memory.
- `Protocol.ParseFromBuffer` requires `buffer_size` to be no more than the bytes actually handed over. This is what the C++ caller must guarantee.
- `FileSystem.FileExists`: `opendir` and `readdir` are abstracted as a `DirStream`. A stale `errno` that could make a clean end of stream look like a read error is not modelled. Neither is the `strcmp` cut-off at an embedded NUL: names are compared in full.
- The exception types `proto::root_dir_not_found`, `fs::dir_not_found` and the status enum are used but not defined in the repository. They are declared here. `proto::file_seach_response` is declared with only a `full_path` field (protocol.hpp:13-15). `Networking.Response` instead has the `status` and `payload` fields that `handle_request` assigns. An exception not derived from `std::exception` would escape `handle_request`, but nothing in the modelled code throws one, so it is not modelled.
- `buffer.reserve` (protocol.cpp:13) has no observable effect and is not modelled.
