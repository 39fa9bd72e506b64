/** What the two incremental parsers share: the parser state as a value,
    the search for the end of the header block, the choice of body
    framing after a head, and the two body phases. */
module Framing {
  import opened Text
  import opened HttpConst
  import opened Headers
  import opened ChunkParsing
  import opened InputBuffers

  /** The parser's state as a value: the phase, the unconsumed bytes, the
      two body counters, the chunk validator and the head being filled. */
  datatype ParserState<H> = ParserState(
    status: ParserStatus, pending: seq<Byte>, total: nat, readLen: nat,
    checker: Checker, head: H)

  /** What one `parse()` call returns and leaves behind. The view is the
      run of bytes the call hands out, copied from the buffer. */
  datatype Step<H> = Step(result: ParserResult, view: seq<Byte>, after: ParserState<H>)

  /** A state either parser can call `parse()` in: the chunk validator
      has not failed while a chunked body is being read (the validator
      asserts this), and the body counters are in range. */
  predicate Steppable<H>(m: ParserState<H>)
  {
    m.readLen <= m.total && !(m.status == ReadChunked && m.checker.phase == Failed)
  }

  const DOUBLE_CRLF: string := "\r\n\r\n"

  /** Where the header block ends: the earliest CRLF CRLF among the
      unconsumed bytes, if at least four are buffered. */
  function HeaderEnd(pending: seq<Byte>): (r: Option<nat>)
    ensures r.Some? ==> r.value + 4 <= |pending| && pending[r.value..r.value + 4] == DOUBLE_CRLF
    ensures r.Some? ==> forall k :: 0 <= k < r.value ==> !MatchAt(pending, DOUBLE_CRLF, k)
    ensures r.None? ==> forall k :: 0 <= k ==> !MatchAt(pending, DOUBLE_CRLF, k)
  {
    if |pending| < 4 then None else IndexOf(pending, DOUBLE_CRLF, 0)
  }

  /** How the body after a head is delimited, decided from the header
      map as both parsers do: a `Content-Length` entry wins whatever
      `Transfer-Encoding` says; it must parse as an unsigned 64-bit
      value. Without one, a `Transfer-Encoding` entry must be `chunked`
      in any case. */
  datatype BodyFraming = ByLength(n: nat) | BadLength | Chunked | BadEncoding | Unframed

  function BodyFramingOf(headers: HeaderMap): (f: BodyFraming)
  {
    FramingFrom(FindFolded(headers, "content-length"), FindFolded(headers, "transfer-encoding"))
  }

  /** The framing is decided by the entries named `Content-Length` and
      `Transfer-Encoding` in any spelling, found case-insensitively. */
  lemma BodyFramingByName(headers: HeaderMap, cl: string, te: string)
    requires Lower(cl) == "content-length" && Lower(te) == "transfer-encoding"
    ensures BodyFramingOf(headers) == FramingFrom(Find(headers, cl), Find(headers, te))
  {
    FindFoldedIsFind(headers, cl);
    FindFoldedIsFind(headers, te);
  }

  /** The two names as the source spells them meet that condition. */
  lemma ContentLengthFolds(cl: string)
    requires cl == "Content-Length"
    ensures Lower(cl) == "content-length"
  {
  }

  lemma TransferEncodingFolds(te: string)
    requires te == "Transfer-Encoding"
    ensures Lower(te) == "transfer-encoding"
  {
  }

  /** The decision on the two looked-up values. */
  function FramingFrom(contentLength: Option<string>, transferEncoding: Option<string>): (f: BodyFraming)
    ensures f.ByLength? ==> f.n < UINT64_LIMIT
  {
    match contentLength
    case Some(cl) =>
      (match ParseUnsigned(cl, UINT64_LIMIT)
       case Some(n) => ByLength(n)
       case None => BadLength)
    case None =>
      match transferEncoding
      case Some(te) => if Lower(te) == "chunked" then Chunked else BadEncoding
      case None => Unframed
  }

  /** The precedence rule, in both directions: the length decides exactly
      when there is a `Content-Length` entry, and then the
      `Transfer-Encoding` entry plays no part; `chunked` is recognised in
      any case. */
  lemma ContentLengthWins(cl: Option<string>, te: Option<string>, te2: Option<string>)
    ensures cl.Some? <==> FramingFrom(cl, te).ByLength? || FramingFrom(cl, te).BadLength?
    ensures cl.Some? ==> FramingFrom(cl, te) == FramingFrom(cl, te2)
    ensures cl.Some? ==>
      (FramingFrom(cl, te).ByLength? <==> ParseUnsigned(cl.value, UINT64_LIMIT).Some?)
    ensures FramingFrom(cl, te).ByLength? ==>
      FramingFrom(cl, te).n < UINT64_LIMIT
      && Some(FramingFrom(cl, te).n) == ParseUnsigned(cl.value, UINT64_LIMIT)
    ensures FramingFrom(cl, te) == Chunked <==>
      cl.None? && te.Some? && Lower(te.value) == "chunked"
    ensures FramingFrom(cl, te) == Unframed <==> cl.None? && te.None?
  {
  }

  /** A fixed-length body phase: once the target is buffered, exactly the
      rest of the body is handed out and the parser returns to reading
      heads; until then everything buffered is handed out. The target is
      `total - readLen`, and `readLen` is never advanced. */
  function ContentStep<H>(m: ParserState<H>): (r: Step<H>)
    requires m.readLen <= m.total
    ensures r.result == ReadContentEnd || r.result == ReadSomeContent
  {
    var remaining := m.total - m.readLen;
    if |m.pending| >= remaining then
      Step(ReadContentEnd, m.pending[..remaining],
           m.(status := ReadHeader, pending := m.pending[remaining..]))
    else
      Step(ReadSomeContent, m.pending, m.(pending := []))
  }

  /** The view and the rest re-assemble the unconsumed bytes; a body
      arriving in pieces never finishes, because the target stays the
      same after a partial step. */
  lemma ContentStepSplits<H>(m: ParserState<H>)
    requires m.readLen <= m.total
    ensures ContentStep(m).view + ContentStep(m).after.pending == m.pending
    ensures ContentStep(m).result == ReadContentEnd <==> m.total - m.readLen <= |m.pending|
    ensures ContentStep(m).result == ReadContentEnd ==>
      |ContentStep(m).view| == m.total - m.readLen && ContentStep(m).after.status == ReadHeader
    ensures ContentStep(m).result == ReadSomeContent ==>
      ContentStep(m).after.total - ContentStep(m).after.readLen == m.total - m.readLen
      && ContentStep(m).after.status == m.status
  {
    var r := ContentStep(m);
    if r.result == ReadContentEnd {
      assert m.pending[..m.total - m.readLen] + m.pending[m.total - m.readLen..] == m.pending;
    }
  }

  /** The outcome of `check` over the unconsumed bytes, with the facts
      the chunked steps rely on. */
  function CheckPending(c: Checker, pending: seq<Byte>): (o: Outcome)
    requires c.phase != Failed
    ensures o == Run(c, pending)
    ensures o.ok <==> o.after.phase != Failed
    ensures o.ok ==> o.consumed == |pending|
    ensures !o.ok ==> o.consumed < |pending|
  {
    RunReportsOffendingByte(c, pending);
    Run(c, pending)
  }

  lemma MatchAtBytes(p: seq<Byte>, k: nat)
    requires k + 4 <= |p|
    ensures MatchAt(p, DOUBLE_CRLF, k) <==> p[k] == '\r' && p[k + 1] == '\n' && p[k + 2] == '\r' && p[k + 3] == '\n'
  {
    var w := p[k..k + 4];
    assert w[0] == p[k] && w[1] == p[k + 1] && w[2] == p[k + 2] && w[3] == p[k + 3];
  }

  /** `double_crlf_pos`: the loop over `buffer[parser_idx..buffer_size - 4]`
      that looks for CR LF CR LF; `buffer_size` when there is none. */
  method FindDoubleCrlf(input: InputBuffer) returns (pos: nat)
    requires input.Valid() && input.bufferSize - input.parserIdx >= 4
    ensures HeaderEnd(input.Pending()).None? ==> pos == input.bufferSize
    ensures HeaderEnd(input.Pending()).Some? ==> pos == input.parserIdx + HeaderEnd(input.Pending()).value
  {
    ghost var p := input.Pending();
    var buffer := input.buffer;
    assert p == buffer[input.parserIdx..input.bufferSize];
    var i := input.parserIdx;
    while i <= input.bufferSize - 4
      invariant input.parserIdx <= i <= input.bufferSize - 3
      invariant forall k :: 0 <= k < i - input.parserIdx ==> !MatchAt(p, DOUBLE_CRLF, k)
    {
      MatchAtBytes(p, i - input.parserIdx);
      assert p[i - input.parserIdx] == buffer[i] && p[i - input.parserIdx + 1] == buffer[i + 1];
      assert p[i - input.parserIdx + 2] == buffer[i + 2] && p[i - input.parserIdx + 3] == buffer[i + 3];
      if buffer[i] == '\r' && buffer[i + 1] == '\n' && buffer[i + 2] == '\r' && buffer[i + 3] == '\n' {
        return i;
      }
      i := i + 1;
    }
    return input.bufferSize;
  }
}
