/** `http_request_parser`: the incremental request parser. One `parse()`
    call takes one step on the buffered bytes: it reads a head once the
    whole header block is buffered, then hands out the body by length or
    by chunked framing. */
module RequestParsing {
  import opened Text
  import opened HttpConst
  import opened Headers
  import opened ChunkParsing
  import opened InputBuffers
  import opened Heads
  import opened StartLine
  import opened Framing

  type RequestState = ParserState<RequestHead>

  /** The methods whose requests carry no body. */
  predicate IsBodylessMethod(name: string)
  {
    name == "GET" || name == "HEAD" || name == "DELETE" || name == "CONNECT"
  }

  /** The methods whose requests carry one. */
  predicate IsBodyMethod(name: string)
  {
    name == "POST" || name == "PUT"
  }

  /** The state a fresh parser is in. */
  const FRESH_REQUEST_PARSER: RequestState := ParserState(ReadHeader, [], 0, 0, INITIAL, NEW_REQUEST)

  /** `parse()` as a function of the state. */
  function RequestStep(m: RequestState): (r: Step<RequestHead>)
    requires Steppable(m)
  {
    if m.status == ReadHeaderOnlyFinish then Step(ReadContentEnd, [], m.(status := ReadHeader))
    else if m.pending == [] then Step(WaitingInput, [], m)
    else if m.status == ReadHeader then RequestHeadStep(m)
    else if m.status == ReadContent then ContentStep(m)
    else if m.status == ReadChunked then RequestChunkStep(m)
    else Step(InvalidParserStatus, [], m)
  }

  /** The `read_header` phase: wait for the earliest CRLF CRLF, parse the
      block up to and including it into the head, and move past it
      whatever the outcome. */
  function RequestHeadStep(m: RequestState): (r: Step<RequestHead>)
  {
    match HeaderEnd(m.pending)
    case None => Step(ReadingHeader, [], m)
    case Some(k) =>
      var (res, h) := RequestHeaderSpec(m.pending[..k + 4], m.head);
      AcceptRequestHead(res, m.(pending := m.pending[k + 4..], head := h))
  }

  /** What follows a parsed head: any failure of the head parser becomes
      `bad_request`; the method and version are checked; then the method
      and the framing headers decide the next phase. */
  function AcceptRequestHead(res: ParserResult, m: RequestState): (r: Step<RequestHead>)
    ensures r.view == [] && r.after.pending == m.pending && r.after.head == m.head
    ensures r.result in {ReadOneHeader, BadRequest, InvalidMethod, InvalidVersion, InvalidTransferEncoding, ParseError}
    ensures r.result == ReadOneHeader ==> res == ReadOneHeader && ValidMethod(m.head) && ValidVersion(m.head)
    ensures r.result == InvalidVersion ==> res == ReadOneHeader && !ValidVersion(m.head)
  {
    if res != ReadOneHeader then Step(BadRequest, [], m)
    else if !ValidMethod(m.head) then Step(InvalidMethod, [], m)
    else if !ValidVersion(m.head) then Step(InvalidVersion, [], m)
    else RequestBodyPhase(m.(total := 0, readLen := 0, checker := INITIAL))
  }

  /** The phase after an accepted head: bodyless methods finish at once;
      POST and PUT follow the framing headers; no other method gets
      here. */
  function RequestBodyPhase(m: RequestState): (r: Step<RequestHead>)
    ensures r.view == [] && r.after.pending == m.pending && r.after.head == m.head
    ensures r.result in {ReadOneHeader, BadRequest, InvalidTransferEncoding, ParseError}
  {
    if IsBodylessMethod(m.head.methodName) then
      Step(ReadOneHeader, [], m.(status := ReadHeaderOnlyFinish))
    else if IsBodyMethod(m.head.methodName) then
      match BodyFramingOf(m.head.headers)
      case ByLength(n) => Step(ReadOneHeader, [], m.(total := n, status := ReadContent))
      case BadLength => Step(BadRequest, [], m)
      case Chunked => Step(ReadOneHeader, [], m.(checker := INITIAL, status := ReadChunked))
      case BadEncoding => Step(InvalidTransferEncoding, [], m)
      case Unframed => Step(ParseError, [], m)
    else Step(ParseError, [], m)
  }

  /** The `read_chunked` phase: the view is exactly what `check`
      consumed; a violation consumes nothing. */
  function RequestChunkStep(m: RequestState): (r: Step<RequestHead>)
    requires m.checker.phase != Failed
    ensures r.view + r.after.pending == m.pending
    ensures r.result in {ChunkCheckError, ReadContentEnd, ReadSomeContent}
  {
    var o := CheckPending(m.checker, m.pending);
    if !o.ok then Step(ChunkCheckError, [], m.(checker := o.after))
    else
      var m1 := m.(checker := o.after, pending := m.pending[o.consumed..]);
      if o.after.phase == Complete then Step(ReadContentEnd, m.pending[..o.consumed], m1.(status := ReadHeader))
      else Step(ReadSomeContent, m.pending[..o.consumed], m1)
  }

  class RequestParser {
    /** `buffer`, `buffer_size` and `parser_idx`. */
    const input: InputBuffer
    /** `_cur_chunk_checker`. */
    const checker: ChunkParser
    /** `_header`. */
    const header: RequestHeader
    /** `total_content_length`, a `uint64_t`. */
    var totalContentLength: nat
    /** `read_content_length`: zeroed after every head and never advanced. */
    var readContentLength: nat
    /** `_pipeline_allowed`: stored, but the request parser never reads it. */
    const pipelineAllowed: bool
    /** `_status`. */
    var status: ParserStatus

    ghost predicate Valid()
      reads this, input
    {
      input.Valid() && totalContentLength < UINT64_LIMIT && readContentLength == 0
    }

    function State(): RequestState
      reads this, input, input.buffer, checker, header
      requires input.Valid()
    {
      ParserState(status, input.Pending(), totalContentLength, readContentLength,
                  checker.Model(), header.Model())
    }

    /** `http_request_parser(pipeline_allowed = false)`. The two counters
        are left uninitialised by the source; they start at 0 here. */
    constructor (pipelineAllowed: bool)
      ensures Valid() && State() == FRESH_REQUEST_PARSER
      ensures this.pipelineAllowed == pipelineAllowed
      ensures fresh(input) && fresh(input.buffer) && fresh(checker) && fresh(header)
    {
      input := new InputBuffer();
      checker := new ChunkParser();
      header := new RequestHeader();
      totalContentLength := 0;
      readContentLength := 0;
      this.pipelineAllowed := pipelineAllowed;
      status := ReadHeader;
    }

    function Status(): (r: ParserStatus)
      reads this
      ensures r == status
    {
      status
    }

    /** `append_input`: only the unconsumed bytes change. */
    method AppendInput(bytes: seq<Byte>) returns (ok: bool)
      requires Valid()
      modifies input, input.buffer
      ensures Valid()
      ensures ok <==> |bytes| + old(input.CompactedSize()) < MAX_HTTP_BUFFER_LENGTH
      ensures State() == old(State()).(pending := old(State().pending) + if ok then bytes else [])
    {
      ok := input.Append(bytes);
    }

    /** `reset`. */
    method Reset()
      requires Valid()
      modifies this, input, checker, header
      ensures Valid() && State() == FRESH_REQUEST_PARSER.(head := RESET_REQUEST)
      ensures input.parserIdx == 0 && input.bufferSize == 0
    {
      status := ReadHeader;
      input.parserIdx := 0;
      input.bufferSize := 0;
      header.Reset();
      checker.Reset();
      totalContentLength := 0;
      readContentLength := 0;
    }

    /** `reset_header`. */
    method ResetHeader()
      requires Valid()
      modifies header
      ensures Valid() && State() == old(State()).(head := RESET_REQUEST)
    {
      header.Reset();
    }

    /** `parse()`. */
    method Parse() returns (res: ParserResult, view: seq<Byte>)
      requires Valid() && Steppable(State())
      modifies this, input, checker, header
      ensures Valid() && input.bufferSize == old(input.bufferSize)
      ensures Step(res, view, State()) == RequestStep(old(State()))
    {
      if status == ReadHeaderOnlyFinish {
        status := ReadHeader;
        return ReadContentEnd, [];
      }
      if input.parserIdx == input.bufferSize {
        return WaitingInput, [];
      }
      if status == ReadHeader {
        res := ParseHead();
        view := [];
      } else if status == ReadContent {
        res, view := ParseContent();
      } else if status == ReadChunked {
        res, view := ParseChunked();
      } else {
        return InvalidParserStatus, [];
      }
    }

    /** The `read_header` branch of `parse()`. */
    method ParseHead() returns (res: ParserResult)
      requires Valid() && status == ReadHeader
      modifies this, input, checker, header
      ensures Valid() && input.bufferSize == old(input.bufferSize)
      ensures Step(res, [], State()) == RequestHeadStep(old(State()))
    {
      ghost var m := State();
      if input.bufferSize - input.parserIdx < 4 {
        return ReadingHeader;
      }
      var pos := FindDoubleCrlf(input);
      if pos == input.bufferSize {
        return ReadingHeader;
      }
      ghost var k := HeaderEnd(m.pending).value;
      SplitPending(input.buffer[..], input.parserIdx, input.bufferSize, k + 4);
      var block := input.buffer[input.parserIdx..pos + 4];
      assert block == m.pending[..k + 4];
      var r := ParseRequestHeader(block, header);
      input.parserIdx := pos + 4;
      assert input.Pending() == m.pending[k + 4..];
      ghost var m1 := m.(pending := m.pending[k + 4..], head := header.Model());
      assert State() == m1;
      res := AcceptHead(r);
    }

    /** The checks and phase choice after a head was parsed. */
    method AcceptHead(r: ParserResult) returns (res: ParserResult)
      requires Valid()
      modifies this, checker
      ensures Valid() && input.bufferSize == old(input.bufferSize)
      ensures Step(res, [], State()) == AcceptRequestHead(r, old(State()))
    {
      if r != ReadOneHeader {
        return BadRequest;
      }
      if !ValidMethod(header.Model()) {
        return InvalidMethod;
      }
      if !ValidVersion(header.Model()) {
        return InvalidVersion;
      }
      totalContentLength := 0;
      readContentLength := 0;
      checker.Reset();
      res := ChooseBodyPhase();
    }

    /** The method and the framing headers pick the next phase. */
    method ChooseBodyPhase() returns (res: ParserResult)
      requires Valid()
      modifies this, checker
      ensures Valid() && input.bufferSize == old(input.bufferSize)
      ensures Step(res, [], State()) == RequestBodyPhase(old(State()))
    {
      ghost var m := State();
      if IsBodylessMethod(header.methodName) {
        status := ReadHeaderOnlyFinish;
        return ReadOneHeader;
      } else if IsBodyMethod(header.methodName) {
        var contentLength := FindFolded(header.headersMap, "content-length");
        var transferEncoding := FindFolded(header.headersMap, "transfer-encoding");
        match FramingFrom(contentLength, transferEncoding)
        case ByLength(n) =>
          totalContentLength := n;
          status := ReadContent;
        case BadLength =>
          return BadRequest;
        case Chunked =>
          checker.Reset();
          status := ReadChunked;
        case BadEncoding =>
          return InvalidTransferEncoding;
        case Unframed =>
          return ParseError;
      } else {
        return ParseError;
      }
      return ReadOneHeader;
    }

    /** The `read_content` branch of `parse()`. */
    method ParseContent() returns (res: ParserResult, view: seq<Byte>)
      requires Valid() && status == ReadContent
      modifies this, input
      ensures Valid() && input.bufferSize == old(input.bufferSize)
      ensures Step(res, view, State()) == ContentStep(old(State()))
    {
      ghost var m := State();
      var remaining := totalContentLength - readContentLength;
      if input.bufferSize - input.parserIdx >= remaining {
        SplitPending(input.buffer[..], input.parserIdx, input.bufferSize, remaining);
        view := input.buffer[input.parserIdx..input.parserIdx + remaining];
        assert view == m.pending[..remaining];
        status := ReadHeader;
        input.parserIdx := input.parserIdx + remaining;
        assert input.Pending() == m.pending[remaining..];
        assert State() == m.(status := ReadHeader, pending := m.pending[remaining..]);
        return ReadContentEnd, view;
      } else {
        view := input.buffer[input.parserIdx..input.bufferSize];
        input.parserIdx := input.bufferSize;
        return ReadSomeContent, view;
      }
    }

    /** The `read_chunked` branch of `parse()`. */
    method ParseChunked() returns (res: ParserResult, view: seq<Byte>)
      requires Valid() && status == ReadChunked && !checker.IsFail()
      modifies this, input, checker
      ensures Valid() && input.bufferSize == old(input.bufferSize)
      ensures Step(res, view, State()) == RequestChunkStep(old(State()))
    {
      ghost var m := State();
      var ok, consumed := checker.Check(input.buffer, input.parserIdx, input.bufferSize);
      ghost var o := CheckPending(m.checker, m.pending);
      assert Outcome(ok, consumed, checker.Model()) == o;
      if !ok {
        return ChunkCheckError, [];
      }
      SplitPending(input.buffer[..], input.parserIdx, input.bufferSize, consumed);
      view := input.buffer[input.parserIdx..input.parserIdx + consumed];
      assert view == m.pending[..consumed];
      input.parserIdx := input.parserIdx + consumed;
      assert input.Pending() == m.pending[consumed..];
      if checker.IsComplete() {
        status := ReadHeader;
        return ReadContentEnd, view;
      } else {
        return ReadSomeContent, view;
      }
    }
  }
}
