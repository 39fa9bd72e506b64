/** Constants and enumerations shared by the parsers: buffer sizes, the
    parser phase, the ordered result codes, HTTP versions and status
    codes, and the mapping of a result code to an error description. */
module HttpConst {
  import opened Text

  /** Capacity of each parser's input buffer. */
  const MAX_HTTP_BUFFER_LENGTH: nat := 4096 * 16
  /** Read-chunk size used by the connection layer. */
  const BUFFER_LENGTH: nat := 2048 * 16

  const UINT16_MAX: nat := 0xFFFF
  const UINT32_LIMIT: nat := 0x1_0000_0000
  const UINT64_LIMIT: nat := 0x1_0000_0000_0000_0000

  /** `http_version`; only 1.0 and 1.1 are supported. */
  datatype HttpVersion = VInvalid | V10 | V11

  /** `reply_status` is an enum class, but the status-line parser casts
      any parsed value below 65535 into it, so a code is any 16-bit value. */
  type StatusCode = n: nat | n < 0x1_0000

  const STATUS_OK: StatusCode := 200
  const STATUS_BAD_REQUEST: StatusCode := 400
  const STATUS_BAD_GATEWAY: StatusCode := 502

  /** `http_parser_status`: the phase of an incremental parser. */
  datatype ParserStatus = ReadHeader | ReadContent | ReadChunked | ReadHeaderOnlyFinish

  /** `http_parser_result`, in declaration order. */
  datatype ParserResult =
    | ReadingHeader | ReadOneHeader | ReadingContent | ReadingChunk
    | ReadSomeContent | ReadContentEnd | WaitingInput
    | ParseError | PipelineNotSupported | BufferOverflow | BadRequest
    | InvalidMethod | InvalidVersion | InvalidStatus | InvalidUri
    | InvalidTransferEncoding | ChunkCheckError | InvalidParserStatus

  /** The enumerator's integer value (its declaration position). */
  function Ordinal(r: ParserResult): (n: nat)
    ensures n < 18
  {
    match r
    case ReadingHeader => 0
    case ReadOneHeader => 1
    case ReadingContent => 2
    case ReadingChunk => 3
    case ReadSomeContent => 4
    case ReadContentEnd => 5
    case WaitingInput => 6
    case ParseError => 7
    case PipelineNotSupported => 8
    case BufferOverflow => 9
    case BadRequest => 10
    case InvalidMethod => 11
    case InvalidVersion => 12
    case InvalidStatus => 13
    case InvalidUri => 14
    case InvalidTransferEncoding => 15
    case ChunkCheckError => 16
    case InvalidParserStatus => 17
  }

  /** The codes that end the current message: every failure the parsers
      report. */
  predicate IsTerminalError(r: ParserResult)
  {
    r in {ParseError, PipelineNotSupported, BufferOverflow, BadRequest, InvalidMethod,
          InvalidVersion, InvalidStatus, InvalidUri, InvalidTransferEncoding,
          ChunkCheckError, InvalidParserStatus}
  }

  /** Callers test `result >= parse_error` to detect a failure: that
      comparison singles out exactly the terminal errors, and distinct
      enumerators have distinct values. */
  lemma ErrorsOrderedAfterParseError(r: ParserResult, q: ParserResult)
    ensures Ordinal(r) >= Ordinal(ParseError) <==> IsTerminalError(r)
    ensures Ordinal(r) == Ordinal(q) ==> r == q
  {
  }

  const UNKNOWN_ERROR_PREFIX: string := "unknown error "

  /** `from_praser_result_to_description`: every result maps to a 502
      reply; seven codes have a fixed text, every other one reads
      "unknown error N" with N its enumerator value. */
  function ResultDescription(r: ParserResult): (d: (StatusCode, string, string))
    ensures d.0 == STATUS_BAD_GATEWAY && d.1 == "Bad Gateway"
    ensures r !in {BufferOverflow, InvalidMethod, InvalidVersion, InvalidStatus,
                   InvalidTransferEncoding, PipelineNotSupported, BadRequest}
            ==> StartsWith(d.2, UNKNOWN_ERROR_PREFIX)
                && ParseUnsigned(d.2[|UNKNOWN_ERROR_PREFIX|..], 18) == Some(Ordinal(r))
  {
    ParsePrintRoundTrip(Ordinal(r), 18);
    match r
    case BufferOverflow => (STATUS_BAD_GATEWAY, "Bad Gateway", "Response header too long")
    case InvalidMethod => (STATUS_BAD_GATEWAY, "Bad Gateway", "invalid method")
    case InvalidVersion => (STATUS_BAD_GATEWAY, "Bad Gateway", "HTTP version not supported")
    case InvalidStatus => (STATUS_BAD_GATEWAY, "Bad Gateway", "Unexpected status code")
    case InvalidTransferEncoding => (STATUS_BAD_GATEWAY, "Bad Gateway", "Failed to check chunked response")
    case PipelineNotSupported => (STATUS_BAD_GATEWAY, "Bad Gateway", "pipeline not supported")
    case BadRequest => (STATUS_BAD_GATEWAY, "Bad Gateway", "Failed to parse response header")
    case _ => (STATUS_BAD_GATEWAY, "Bad Gateway", UNKNOWN_ERROR_PREFIX + NatToString(Ordinal(r)))
  }

  /** The seven codes with a fixed text. */
  predicate HasFixedText(r: ParserResult)
  {
    r in {BufferOverflow, InvalidMethod, InvalidVersion, InvalidStatus,
          InvalidTransferEncoding, PipelineNotSupported, BadRequest}
  }

  /** Length and first letter of each fixed text. */
  function Signature(r: ParserResult): (g: (nat, char))
    requires HasFixedText(r)
  {
    match r
    case BufferOverflow => (24, 'R')
    case InvalidMethod => (14, 'i')
    case InvalidVersion => (26, 'H')
    case InvalidStatus => (22, 'U')
    case InvalidTransferEncoding => (32, 'F')
    case PipelineNotSupported => (22, 'p')
    case BadRequest => (31, 'F')
  }

  lemma SignatureInjective(r: ParserResult, q: ParserResult)
    requires HasFixedText(r) && HasFixedText(q) && Signature(r) == Signature(q)
    ensures r == q
  {
  }

  /** A fixed text never starts like an "unknown error" text, and its
      length and first letter are its signature. */
  lemma FixedTextSignature(r: ParserResult)
    requires HasFixedText(r)
    ensures |ResultDescription(r).2| > 0 && ResultDescription(r).2[0] != 'u'
    ensures (|ResultDescription(r).2|, ResultDescription(r).2[0]) == Signature(r)
  {
    match r
    case BufferOverflow =>
    case InvalidMethod =>
    case InvalidVersion =>
    case InvalidStatus =>
    case InvalidTransferEncoding =>
    case PipelineNotSupported =>
    case BadRequest =>
  }

  /** The description text identifies the result code: two different
      codes never share a message. */
  lemma {:induction false} DescriptionIsInjective(r: ParserResult, q: ParserResult)
    requires ResultDescription(r).2 == ResultDescription(q).2
    ensures r == q
  {
    var m := ResultDescription(r).2;
    var k := |UNKNOWN_ERROR_PREFIX|;
    if HasFixedText(r) && HasFixedText(q) {
      FixedTextSignature(r);
      FixedTextSignature(q);
      SignatureInjective(r, q);
    } else if HasFixedText(r) {
      FixedTextSignature(r);
    } else if HasFixedText(q) {
      FixedTextSignature(q);
    } else {
      assert NatToString(Ordinal(r)) == m[k..] == NatToString(Ordinal(q));
      NatToStringInjective(Ordinal(r), Ordinal(q));
      ErrorsOrderedAfterParseError(r, q);
    }
  }
}
