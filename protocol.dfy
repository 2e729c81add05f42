/**
  The request wire codec: `file_search_request::serialize` and
  `file_search_request::parse_from_buffer`.

  A request frame is

      total:u32 | filename_len:u32 | filename | root_path_len:u32 | root_path

  with every u32 in network (big-endian) order. The declared total is
  3 * 4 + |filename| + |root_path|: it counts the 4-byte total field itself
  as well as everything after it.
*/
module Protocol {
  import opened Common

  /** Number of values a `uint32_t` can hold. */
  const TWO32: nat := 0x1_0000_0000

  /** Width in bytes of each length field (`sizeof(uint32_t)`). */
  const LEN_FIELD: nat := 4

  /** Bytes of a frame that are not filename or root path: three length fields. */
  const HEADER_BYTES: nat := 3 * LEN_FIELD

  /** Conversion of a `size_t` to `uint32_t`: only the low 32 bits survive. */
  function ToU32(n: nat): (r: nat)
    ensures r < TWO32
    ensures n < TWO32 ==> r == n
    ensures r <= n
    ensures (n - r) % TWO32 == 0
  {
    n % TWO32
  }

  /** `htonl` followed by a copy of the four bytes in memory order. */
  function EncodeBE32(x: nat): (b: Bytes)
    requires x < TWO32
    ensures |b| == LEN_FIELD
  {
    var x1 := x / 0x100;
    var x2 := x1 / 0x100;
    [(x2 / 0x100) as byte, (x2 % 0x100) as byte, (x1 % 0x100) as byte, (x % 0x100) as byte]
  }

  /** `ntohl` of the four bytes at the start of `b`. */
  function DecodeBE32(b: Bytes): (x: nat)
    requires |b| >= LEN_FIELD
    ensures x < TWO32
  {
    ((b[0] as nat * 0x100 + b[1] as nat) * 0x100 + b[2] as nat) * 0x100 + b[3] as nat
  }

  lemma DecodeEncodeBE32(x: nat)
    requires x < TWO32
    ensures DecodeBE32(EncodeBE32(x)) == x
  {
    var x1 := x / 0x100;
    var x2 := x1 / 0x100;
    assert x == x1 * 0x100 + x % 0x100;
    assert x1 == x2 * 0x100 + x1 % 0x100;
    assert x2 == (x2 / 0x100) * 0x100 + x2 % 0x100;
  }

  lemma EncodeDecodeBE32(b: Bytes)
    requires |b| == LEN_FIELD
    ensures EncodeBE32(DecodeBE32(b)) == b
  {
    var x := DecodeBE32(b);
    var x1 := (b[0] as nat * 0x100 + b[1] as nat) * 0x100 + b[2] as nat;
    var x2 := b[0] as nat * 0x100 + b[1] as nat;
    assert x / 0x100 == x1 && x % 0x100 == b[3] as nat;
    assert x1 / 0x100 == x2 && x1 % 0x100 == b[2] as nat;
    assert x2 / 0x100 == b[0] as nat && x2 % 0x100 == b[1] as nat;
  }

  /** The frame `serialize` produces for `req`: the specification of `Serialize`. */
  function Frame(req: Request): Bytes
  {
    EncodeBE32(ToU32(HEADER_BYTES + |req.filename| + |req.rootPath|))
    + EncodeBE32(ToU32(|req.filename|)) + req.filename
    + EncodeBE32(ToU32(|req.rootPath|)) + req.rootPath
  }

  /** Every length of `req`'s frame, the declared total included, fits in a `uint32_t`. */
  predicate Fits(req: Request)
  {
    HEADER_BYTES + |req.filename| + |req.rootPath| < TWO32
  }

  /** Where each field of a frame sits, and what each length field holds. */
  lemma FrameLayout(req: Request)
    ensures var frame, f, r := Frame(req), req.filename, req.rootPath;
      && |frame| == HEADER_BYTES + |f| + |r|
      && DecodeBE32(frame[..4]) == ToU32(|frame|)
      && DecodeBE32(frame[4..8]) == ToU32(|f|)
      && frame[8..8 + |f|] == f
      && DecodeBE32(frame[8 + |f|..12 + |f|]) == ToU32(|r|)
      && frame[12 + |f|..] == r
  {
    var frame, f, r := Frame(req), req.filename, req.rootPath;
    var t := EncodeBE32(ToU32(HEADER_BYTES + |f| + |r|));
    var lf := EncodeBE32(ToU32(|f|));
    var lr := EncodeBE32(ToU32(|r|));
    assert frame == t + lf + f + lr + r;
    assert frame[..4] == t;
    assert frame[4..8] == lf;
    assert frame[8 + |f|..12 + |f|] == lr;
    DecodeEncodeBE32(ToU32(HEADER_BYTES + |f| + |r|));
    DecodeEncodeBE32(ToU32(|f|));
    DecodeEncodeBE32(ToU32(|r|));
  }

  /** `serialize`: appends the total, then each length and its bytes, to a growing buffer. */
  method Serialize(req: Request) returns (buffer: Bytes)
    ensures buffer == Frame(req)
    ensures |buffer| == HEADER_BYTES + |req.filename| + |req.rootPath|
  {
    buffer := [];
    var payloadSize := ToU32(HEADER_BYTES + |req.filename| + |req.rootPath|);
    buffer := buffer + EncodeBE32(payloadSize);
    var filenameSize := ToU32(|req.filename|);
    buffer := buffer + EncodeBE32(filenameSize);
    buffer := buffer + req.filename;
    var rootPathSize := ToU32(|req.rootPath|);
    buffer := buffer + EncodeBE32(rootPathSize);
    buffer := buffer + req.rootPath;
  }

  /**
    Why parsing stops. `InvalidBufferSize` is the exception the source throws;
    `ReadOutOfBounds` marks a read the source performs without a check, of
    `length` bytes at `offset`, that would leave the buffer.
  */
  datatype ParseError = InvalidBufferSize | ReadOutOfBounds(offset: nat, length: nat)

  /**
    `parse_from_buffer` over the `bufferSize` readable bytes at the start of
    `buffer`: the specification of `ParseFromBuffer`.
  */
  function Parse(buffer: Bytes, bufferSize: nat): Result<Request, ParseError>
    requires bufferSize <= |buffer|
  {
    if bufferSize < 4 then Failure(ReadOutOfBounds(0, 4))
    else if DecodeBE32(buffer[..4]) > bufferSize then Failure(InvalidBufferSize)
    else if bufferSize < 8 then Failure(ReadOutOfBounds(4, 4))
    else
      var flen := DecodeBE32(buffer[4..8]);
      if bufferSize < 8 + flen then Failure(ReadOutOfBounds(8, flen))
      else if bufferSize < 12 + flen then Failure(ReadOutOfBounds(8 + flen, 4))
      else
        var rlen := DecodeBE32(buffer[8 + flen..12 + flen]);
        if bufferSize < 12 + flen + rlen then Failure(ReadOutOfBounds(12 + flen, rlen))
        else Success(Request(buffer[8..8 + flen], buffer[12 + flen..12 + flen + rlen]))
  }

  /** `parse_from_buffer`: a cursor walks the buffer field by field. */
  method ParseFromBuffer(buffer: Bytes, bufferSize: nat) returns (res: Result<Request, ParseError>)
    requires bufferSize <= |buffer|
    ensures res == Parse(buffer, bufferSize)
    ensures res.Success? ==> HEADER_BYTES + |res.value.filename| + |res.value.rootPath| <= bufferSize
  {
    var cursor := 0;
    if bufferSize < cursor + LEN_FIELD {
      return Failure(ReadOutOfBounds(cursor, LEN_FIELD));
    }
    var payloadSize := DecodeBE32(buffer[cursor..cursor + LEN_FIELD]);
    cursor := cursor + LEN_FIELD;

    if payloadSize > bufferSize {
      return Failure(InvalidBufferSize);
    }

    if bufferSize < cursor + LEN_FIELD {
      return Failure(ReadOutOfBounds(cursor, LEN_FIELD));
    }
    var filenameLen := DecodeBE32(buffer[cursor..cursor + LEN_FIELD]);
    cursor := cursor + LEN_FIELD;
    if bufferSize < cursor + filenameLen {
      return Failure(ReadOutOfBounds(cursor, filenameLen));
    }
    var filename := buffer[cursor..cursor + filenameLen];
    cursor := cursor + filenameLen;

    if bufferSize < cursor + LEN_FIELD {
      return Failure(ReadOutOfBounds(cursor, LEN_FIELD));
    }
    var rootPathLen := DecodeBE32(buffer[cursor..cursor + LEN_FIELD]);
    cursor := cursor + LEN_FIELD;
    if bufferSize < cursor + rootPathLen {
      return Failure(ReadOutOfBounds(cursor, rootPathLen));
    }
    var rootPath := buffer[cursor..cursor + rootPathLen];
    return Success(Request(filename, rootPath));
  }

  /**
    Parsing a whole serialized frame gives back the request it came from.
    Only the two field lengths need to fit in 32 bits: a wrapped total is
    still no larger than the frame.
  */
  lemma ParseRoundTrip(req: Request)
    requires |req.filename| < TWO32 && |req.rootPath| < TWO32
    ensures Parse(Frame(req), |Frame(req)|) == Success(req)
  {
    FrameLayout(req);
    var frame, f, r := Frame(req), req.filename, req.rootPath;
    assert DecodeBE32(frame[4..8]) == |f|;
    assert DecodeBE32(frame[8 + |f|..12 + |f|]) == |r|;
    assert frame[12 + |f|..12 + |f| + |r|] == r;
    ParseFields(frame, |frame|);
  }

  /**
    Once the declared total can be read, parsing throws "Invalid buffer size"
    exactly when that total exceeds `bufferSize`.
  */
  lemma InvalidBufferSizeExactly(buffer: Bytes, bufferSize: nat)
    requires 4 <= bufferSize <= |buffer|
    ensures Parse(buffer, bufferSize) == Failure(InvalidBufferSize)
      <==> DecodeBE32(buffer[..4]) > bufferSize
  {
  }

  /**
    When the declared total is within `bufferSize` and both fields with
    their lengths fit, every read is in bounds and the fields are copied
    verbatim from fixed offsets.
  */
  lemma ParseFields(buffer: Bytes, bufferSize: nat)
    requires 8 <= bufferSize <= |buffer|
    requires DecodeBE32(buffer[..4]) <= bufferSize
    requires 12 + DecodeBE32(buffer[4..8]) <= bufferSize
    requires var flen := DecodeBE32(buffer[4..8]);
      12 + flen + DecodeBE32(buffer[8 + flen..12 + flen]) <= bufferSize
    ensures var flen := DecodeBE32(buffer[4..8]);
      var rlen := DecodeBE32(buffer[8 + flen..12 + flen]);
      Parse(buffer, bufferSize)
        == Success(Request(buffer[8..8 + flen], buffer[12 + flen..12 + flen + rlen]))
  {
  }

  /**
    Bytes after the root-path field play no part: extending a parsable
    buffer with anything at all gives the same request.
  */
  lemma ParseIgnoresTrailingBytes(buffer: Bytes, bufferSize: nat, extra: Bytes)
    requires bufferSize <= |buffer|
    requires Parse(buffer, bufferSize).Success?
    ensures Parse(buffer[..bufferSize] + extra, bufferSize + |extra|) == Parse(buffer, bufferSize)
  {
    var b := buffer[..bufferSize] + extra;
    assert b[..bufferSize] == buffer[..bufferSize];
    assert b[..4] == buffer[..4];
    assert b[4..8] == buffer[4..8];
    var flen := DecodeBE32(buffer[4..8]);
    assert b[8..8 + flen] == buffer[8..8 + flen];
    assert b[8 + flen..12 + flen] == buffer[8 + flen..12 + flen];
    var rlen := DecodeBE32(buffer[8 + flen..12 + flen]);
    assert b[12 + flen..12 + flen + rlen] == buffer[12 + flen..12 + flen + rlen];
  }

  /**
    The declared total is only compared with `bufferSize`, never with the
    field lengths: replacing it by any other value within `bufferSize`
    leaves the result unchanged.
  */
  lemma ParseIgnoresDeclaredTotal(buffer: Bytes, bufferSize: nat, total: nat)
    requires 4 <= bufferSize <= |buffer|
    requires DecodeBE32(buffer[..4]) <= bufferSize
    requires total <= bufferSize && total < TWO32
    ensures var b := EncodeBE32(total) + buffer[4..];
      |b| == |buffer| && Parse(b, bufferSize) == Parse(buffer, bufferSize)
  {
    var b := EncodeBE32(total) + buffer[4..];
    assert b[..4] == EncodeBE32(total);
    DecodeEncodeBE32(total);
    assert b[4..] == buffer[4..];
    assert forall i :: 4 <= i < |b| ==> b[i] == buffer[i];
    if bufferSize >= 8 {
      assert b[4..8] == buffer[4..8];
      var flen := DecodeBE32(buffer[4..8]);
      if bufferSize >= 12 + flen {
        assert b[8..8 + flen] == buffer[8..8 + flen];
        assert b[8 + flen..12 + flen] == buffer[8 + flen..12 + flen];
        var rlen := DecodeBE32(buffer[8 + flen..12 + flen]);
        if bufferSize >= 12 + flen + rlen {
          assert b[12 + flen..12 + flen + rlen] == buffer[12 + flen..12 + flen + rlen];
        }
      }
    }
  }

  /**
    A frame cut short at any byte is never accepted: with its declared
    total readable it is rejected as "Invalid buffer size".
  */
  lemma TruncatedFrameRejected(req: Request, k: nat)
    requires Fits(req)
    requires k < HEADER_BYTES + |req.filename| + |req.rootPath|
    ensures |Frame(req)| == HEADER_BYTES + |req.filename| + |req.rootPath|
    ensures Parse(Frame(req)[..k], k).Failure?
    ensures k >= 4 ==> Parse(Frame(req)[..k], k) == Failure(InvalidBufferSize)
  {
    FrameLayout(req);
    var frame := Frame(req);
    if k >= 4 {
      assert frame[..k][..4] == frame[..4];
    }
  }

  /**
    The size check does not protect the reads: this 8-byte buffer declares
    a total of 8, passes the check, and then announces a 100-byte filename
    that the source copies from beyond the buffer's end. A buffer shorter
    than 4 bytes is overrun already by the read of the total itself.
  */
  lemma SizeCheckMissesFieldOverrun()
    ensures var buffer: Bytes := [0, 0, 0, 8, 0, 0, 0, 100];
      && DecodeBE32(buffer[..4]) <= |buffer|
      && Parse(buffer, |buffer|) == Failure(ReadOutOfBounds(8, 100))
    ensures Parse([0, 0], 2) == Failure(ReadOutOfBounds(0, 4))
  {
    var buffer: Bytes := [0, 0, 0, 8, 0, 0, 0, 100];
    assert buffer[..4] == [0, 0, 0, 8];
    assert buffer[4..8] == [0, 0, 0, 100];
  }

  /**
    The decoder the size check evidently intends: every length field is
    checked against `bufferSize` before it is used, and any frame that does
    not fit is rejected as "Invalid buffer size".
  */
  function ParseChecked(buffer: Bytes, bufferSize: nat): (res: Result<Request, ParseError>)
    requires bufferSize <= |buffer|
    ensures res.Failure? ==> res.error == InvalidBufferSize
    ensures res.Success? ==> HEADER_BYTES + |res.value.filename| + |res.value.rootPath| <= bufferSize
  {
    if bufferSize < 8 || DecodeBE32(buffer[..4]) > bufferSize then Failure(InvalidBufferSize)
    else
      var flen := DecodeBE32(buffer[4..8]);
      if bufferSize < 12 + flen then Failure(InvalidBufferSize)
      else
        var rlen := DecodeBE32(buffer[8 + flen..12 + flen]);
        if bufferSize < 12 + flen + rlen then Failure(InvalidBufferSize)
        else Success(Request(buffer[8..8 + flen], buffer[12 + flen..12 + flen + rlen]))
  }

  /**
    The checked decoder agrees with the source wherever the source stays
    inside the buffer, and rejects exactly where the source would overrun.
  */
  lemma ParseCheckedAgrees(buffer: Bytes, bufferSize: nat)
    requires bufferSize <= |buffer|
    ensures Parse(buffer, bufferSize).Failure? && Parse(buffer, bufferSize).error.ReadOutOfBounds?
      ==> ParseChecked(buffer, bufferSize) == Failure(InvalidBufferSize)
    ensures !(Parse(buffer, bufferSize).Failure? && Parse(buffer, bufferSize).error.ReadOutOfBounds?)
      ==> ParseChecked(buffer, bufferSize) == Parse(buffer, bufferSize)
  {
  }

  /** The checked decoder keeps the round trip and rejects every truncated frame. */
  lemma ParseCheckedRoundTrip(req: Request, k: nat)
    requires Fits(req)
    requires k <= HEADER_BYTES + |req.filename| + |req.rootPath|
    ensures |Frame(req)| == HEADER_BYTES + |req.filename| + |req.rootPath|
    ensures ParseChecked(Frame(req), |Frame(req)|) == Success(req)
    ensures k < |Frame(req)| ==> ParseChecked(Frame(req)[..k], k) == Failure(InvalidBufferSize)
  {
    ParseRoundTrip(req);
    ParseCheckedAgrees(Frame(req), |Frame(req)|);
    if k < |Frame(req)| {
      TruncatedFrameRejected(req, k);
      ParseCheckedAgrees(Frame(req)[..k], k);
    }
  }
}
