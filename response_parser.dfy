/** `http_response_parser`: the incremental response parser. It works as
    the request parser does, with three differences: only the version is
    checked after a head, a body-less response returns to reading heads at
    once, and bytes buffered behind a finished message are refused with
    `pipeline_not_supported` unless pipelining is allowed. */
module ResponseParsing {
  import opened Text
  import opened HttpConst
  import opened Headers
  import opened ChunkParsing
  import opened InputBuffers
  import opened Heads
  import opened StartLine
  import opened Framing

  type ResponseState = ParserState<ResponseHead>

  /** The state a fresh parser is in. */
  const FRESH_RESPONSE_PARSER: ResponseState := ParserState(ReadHeader, [], 0, 0, INITIAL, RESET_RESPONSE)

  /** `parse()` as a function of the state and `_pipeline_allowed`. There
      is no `read_header_only_finish` hand-over: that phase is an invalid
      status here. */
  function ResponseStep(m: ResponseState, pipeline: bool): (r: Step<ResponseHead>)
    requires Steppable(m)
  {
    if m.pending == [] then Step(WaitingInput, [], m)
    else if m.status == ReadHeader then ResponseHeadStep(m, pipeline)
    else if m.status == ReadContent then ResponseContentStep(m, pipeline)
    else if m.status == ReadChunked then ResponseChunkStep(m, pipeline)
    else Step(InvalidParserStatus, [], m)
  }

  /** The `read_header` phase, as in the request parser. */
  function ResponseHeadStep(m: ResponseState, pipeline: bool): (r: Step<ResponseHead>)
  {
    match HeaderEnd(m.pending)
    case None => Step(ReadingHeader, [], m)
    case Some(k) =>
      var (res, h) := ResponseHeaderSpec(m.pending[..k + 4], m.head);
      AcceptResponseHead(res, m.(pending := m.pending[k + 4..], head := h), pipeline)
  }

  /** What follows a parsed head: any failure becomes `bad_request`, an
      invalid version `invalid_version`; then the framing headers decide. */
  function AcceptResponseHead(res: ParserResult, m: ResponseState, pipeline: bool): (r: Step<ResponseHead>)
    ensures r.view == [] && r.after.pending == m.pending && r.after.head == m.head
    ensures r.result in {ReadOneHeader, BadRequest, InvalidVersion, InvalidTransferEncoding, PipelineNotSupported}
    ensures r.result == ReadOneHeader ==> res == ReadOneHeader && m.head.version != VInvalid
    ensures r.result == InvalidVersion ==> res == ReadOneHeader && m.head.version == VInvalid
  {
    if res != ReadOneHeader then Step(BadRequest, [], m)
    else if m.head.version == VInvalid then Step(InvalidVersion, [], m)
    else ResponseBodyPhase(m.(total := 0, readLen := 0, checker := INITIAL), pipeline)
  }

  /** The phase after an accepted head: a positive length or a chunked
      coding starts a body; a zero length or no framing at all ends the
      message with the head. */
  function ResponseBodyPhase(m: ResponseState, pipeline: bool): (r: Step<ResponseHead>)
    ensures r.view == [] && r.after.pending == m.pending && r.after.head == m.head
    ensures r.result in {ReadOneHeader, BadRequest, InvalidTransferEncoding, PipelineNotSupported}
  {
    match BodyFramingOf(m.head.headers)
    case ByLength(n) =>
      var m1 := m.(total := n);
      if n > 0 then Step(ReadOneHeader, [], m1.(status := ReadContent))
      else MessageDone(m1.(status := ReadHeader), pipeline)
    case BadLength => Step(BadRequest, [], m)
    case Chunked => Step(ReadOneHeader, [], m.(checker := INITIAL, status := ReadChunked))
    case BadEncoding => Step(InvalidTransferEncoding, [], m)
    case Unframed => MessageDone(m.(status := ReadHeader), pipeline)
  }

  /** A message ended with its head: bytes already buffered behind it are
      refused unless pipelining is allowed. */
  function MessageDone(m: ResponseState, pipeline: bool): (r: Step<ResponseHead>)
    ensures r.after == m && r.view == []
    ensures r.result == PipelineNotSupported <==> m.pending != [] && !pipeline
    ensures r.result != PipelineNotSupported ==> r.result == ReadOneHeader
  {
    if m.pending != [] && !pipeline then Step(PipelineNotSupported, [], m)
    else Step(ReadOneHeader, [], m)
  }

  /** The `read_content` phase: as in the request parser, except that
      more bytes than the remaining target, with pipelining off, are
      refused and nothing changes. */
  function ResponseContentStep(m: ResponseState, pipeline: bool): (r: Step<ResponseHead>)
    requires m.readLen <= m.total
  {
    var remaining := m.total - m.readLen;
    if |m.pending| >= remaining && |m.pending| > remaining && !pipeline then
      Step(PipelineNotSupported, [], m)
    else ContentStep(m)
  }

  /** The `read_chunked` phase: as in the request parser; once the body is
      complete, bytes left behind it are refused unless pipelining is
      allowed (with the cursor already past the body). */
  function ResponseChunkStep(m: ResponseState, pipeline: bool): (r: Step<ResponseHead>)
    requires m.checker.phase != Failed
    ensures r.result in {ChunkCheckError, ReadContentEnd, ReadSomeContent, PipelineNotSupported}
  {
    var o := CheckPending(m.checker, m.pending);
    if !o.ok then Step(ChunkCheckError, [], m.(checker := o.after))
    else
      var m1 := m.(checker := o.after, pending := m.pending[o.consumed..]);
      if o.after.phase == Complete then
        var m2 := m1.(status := ReadHeader);
        if m2.pending != [] && !pipeline then Step(PipelineNotSupported, [], m2)
        else Step(ReadContentEnd, m.pending[..o.consumed], m2)
      else Step(ReadSomeContent, m.pending[..o.consumed], m1)
  }

  class ResponseParser {
    /** `buffer`, `buffer_size` and `parser_idx`. */
    const input: InputBuffer
    /** `_cur_chunk_checker`. */
    const checker: ChunkParser
    /** `_header`. */
    const header: ResponseHeader
    /** `total_content_length`, a `uint64_t`. */
    var totalContentLength: nat
    /** `read_content_length`: zeroed after every head and never advanced. */
    var readContentLength: nat
    /** `_pipeline_allowed`. */
    const pipelineAllowed: bool
    /** `_status`. */
    var status: ParserStatus

    ghost predicate Valid()
      reads this, input
    {
      input.Valid() && totalContentLength < UINT64_LIMIT && readContentLength == 0
    }

    function State(): ResponseState
      reads this, input, input.buffer, checker, header
      requires input.Valid()
    {
      ParserState(status, input.Pending(), totalContentLength, readContentLength,
                  checker.Model(), header.Model())
    }

    /** `http_response_parser(pipeline_allowed = false)`. The two counters
        are left uninitialised by the source; they start at 0 here. */
    constructor (pipelineAllowed: bool)
      ensures Valid() && State() == FRESH_RESPONSE_PARSER
      ensures this.pipelineAllowed == pipelineAllowed
      ensures fresh(input) && fresh(input.buffer) && fresh(checker) && fresh(header)
    {
      input := new InputBuffer();
      checker := new ChunkParser();
      header := new ResponseHeader();
      totalContentLength := 0;
      readContentLength := 0;
      this.pipelineAllowed := pipelineAllowed;
      status := ReadHeader;
    }

    function Status(): (r: ParserStatus)
      reads this
      ensures r == status
    {
      status
    }

    /** `append_input`: only the unconsumed bytes change. */
    method AppendInput(bytes: seq<Byte>) returns (ok: bool)
      requires Valid()
      modifies input, input.buffer
      ensures Valid()
      ensures ok <==> |bytes| + old(input.CompactedSize()) < MAX_HTTP_BUFFER_LENGTH
      ensures State() == old(State()).(pending := old(State().pending) + if ok then bytes else [])
    {
      ok := input.Append(bytes);
    }

    /** `reset`. */
    method Reset()
      requires Valid()
      modifies this, input, checker, header
      ensures Valid() && State() == FRESH_RESPONSE_PARSER
      ensures input.parserIdx == 0 && input.bufferSize == 0
    {
      status := ReadHeader;
      input.parserIdx := 0;
      input.bufferSize := 0;
      header.Reset();
      checker.Reset();
      totalContentLength := 0;
      readContentLength := 0;
    }

    /** `reset_header`. */
    method ResetHeader()
      requires Valid()
      modifies header
      ensures Valid() && State() == old(State()).(head := RESET_RESPONSE)
    {
      header.Reset();
    }

    /** `parse()`. */
    method Parse() returns (res: ParserResult, view: seq<Byte>)
      requires Valid() && Steppable(State())
      modifies this, input, checker, header
      ensures Valid() && input.bufferSize == old(input.bufferSize)
      ensures Step(res, view, State()) == ResponseStep(old(State()), pipelineAllowed)
    {
      if input.parserIdx == input.bufferSize {
        return WaitingInput, [];
      }
      if status == ReadHeader {
        res := ParseHead();
        view := [];
      } else if status == ReadContent {
        res, view := ParseContent();
      } else if status == ReadChunked {
        res, view := ParseChunked();
      } else {
        return InvalidParserStatus, [];
      }
    }

    /** The `read_header` branch of `parse()`. */
    method ParseHead() returns (res: ParserResult)
      requires Valid() && status == ReadHeader
      modifies this, input, checker, header
      ensures Valid() && input.bufferSize == old(input.bufferSize)
      ensures Step(res, [], State()) == ResponseHeadStep(old(State()), pipelineAllowed)
    {
      ghost var m := State();
      if input.bufferSize - input.parserIdx < 4 {
        return ReadingHeader;
      }
      var pos := FindDoubleCrlf(input);
      if pos == input.bufferSize {
        return ReadingHeader;
      }
      ghost var k := HeaderEnd(m.pending).value;
      SplitPending(input.buffer[..], input.parserIdx, input.bufferSize, k + 4);
      var block := input.buffer[input.parserIdx..pos + 4];
      assert block == m.pending[..k + 4];
      var r := ParseResponseHeader(block, header);
      input.parserIdx := pos + 4;
      assert input.Pending() == m.pending[k + 4..];
      ghost var m1 := m.(pending := m.pending[k + 4..], head := header.Model());
      assert State() == m1;
      res := AcceptHead(r);
    }

    /** The checks and phase choice after a head was parsed. */
    method AcceptHead(r: ParserResult) returns (res: ParserResult)
      requires Valid()
      modifies this, checker
      ensures Valid() && input.bufferSize == old(input.bufferSize)
      ensures Step(res, [], State()) == AcceptResponseHead(r, old(State()), pipelineAllowed)
    {
      if r != ReadOneHeader {
        return BadRequest;
      }
      if header.version == VInvalid {
        return InvalidVersion;
      }
      totalContentLength := 0;
      readContentLength := 0;
      checker.Reset();
      res := ChooseBodyPhase();
    }

    /** The framing headers pick the next phase. */
    method ChooseBodyPhase() returns (res: ParserResult)
      requires Valid()
      modifies this, checker
      ensures Valid() && input.bufferSize == old(input.bufferSize)
      ensures Step(res, [], State()) == ResponseBodyPhase(old(State()), pipelineAllowed)
    {
      ghost var m := State();
      var contentLength := FindFolded(header.headersMap, "content-length");
      var transferEncoding := FindFolded(header.headersMap, "transfer-encoding");
      match FramingFrom(contentLength, transferEncoding) {
      case ByLength(n) =>
        totalContentLength := n;
        if totalContentLength > 0 {
          status := ReadContent;
        } else {
          status := ReadHeader;
          if input.parserIdx != input.bufferSize && !pipelineAllowed {
            return PipelineNotSupported;
          }
        }
      case BadLength =>
        return BadRequest;
      case Chunked =>
        checker.Reset();
        status := ReadChunked;
      case BadEncoding =>
        return InvalidTransferEncoding;
      case Unframed =>
        status := ReadHeader;
        if input.parserIdx != input.bufferSize && !pipelineAllowed {
          return PipelineNotSupported;
        }
      }
      return ReadOneHeader;
    }

    /** The `read_content` branch of `parse()`. */
    method ParseContent() returns (res: ParserResult, view: seq<Byte>)
      requires Valid() && status == ReadContent
      modifies this, input
      ensures Valid() && input.bufferSize == old(input.bufferSize)
      ensures Step(res, view, State()) == ResponseContentStep(old(State()), pipelineAllowed)
    {
      ghost var m := State();
      var remaining := totalContentLength - readContentLength;
      if input.bufferSize - input.parserIdx >= remaining {
        if input.bufferSize - input.parserIdx > remaining && !pipelineAllowed {
          return PipelineNotSupported, [];
        }
        SplitPending(input.buffer[..], input.parserIdx, input.bufferSize, remaining);
        view := input.buffer[input.parserIdx..input.parserIdx + remaining];
        assert view == m.pending[..remaining];
        status := ReadHeader;
        input.parserIdx := input.parserIdx + remaining;
        assert input.Pending() == m.pending[remaining..];
        return ReadContentEnd, view;
      } else {
        view := input.buffer[input.parserIdx..input.bufferSize];
        input.parserIdx := input.bufferSize;
        return ReadSomeContent, view;
      }
    }

    /** The `read_chunked` branch of `parse()`. */
    method ParseChunked() returns (res: ParserResult, view: seq<Byte>)
      requires Valid() && status == ReadChunked && !checker.IsFail()
      modifies this, input, checker
      ensures Valid() && input.bufferSize == old(input.bufferSize)
      ensures Step(res, view, State()) == ResponseChunkStep(old(State()), pipelineAllowed)
    {
      ghost var m := State();
      var ok, consumed := checker.Check(input.buffer, input.parserIdx, input.bufferSize);
      ghost var o := CheckPending(m.checker, m.pending);
      assert Outcome(ok, consumed, checker.Model()) == o;
      if !ok {
        return ChunkCheckError, [];
      }
      SplitPending(input.buffer[..], input.parserIdx, input.bufferSize, consumed);
      view := input.buffer[input.parserIdx..input.parserIdx + consumed];
      assert view == m.pending[..consumed];
      input.parserIdx := input.parserIdx + consumed;
      assert input.Pending() == m.pending[consumed..];
      if checker.IsComplete() {
        status := ReadHeader;
        if input.parserIdx != input.bufferSize && !pipelineAllowed {
          return PipelineNotSupported, [];
        }
        return ReadContentEnd, view;
      } else {
        return ReadSomeContent, view;
      }
    }
  }
}
