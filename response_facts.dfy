/** What one `parse()` step of the response parser does, stated over
    `ResponseStep`: which result codes arise when, the phase chosen after
    a head, and where pipelined bytes are refused. */
module ResponseFacts {
  import opened Text
  import opened HttpConst
  import opened Headers
  import opened ChunkParsing
  import opened Heads
  import opened StartLine
  import opened Framing
  import opened ResponseParsing

  // ---------------------------------------------------------------
  // What `parse_response_header` leaves in the head.

  lemma StatusLineEndKeeps(s: string, i: nat, h: ResponseHead)
    requires i < |s|
    ensures var r := StatusLineEndSpec(s, i, h);
      r.1.version == h.version && multiset(h.headers) <= multiset(r.1.headers)
  {
  }

  lemma StatusKeeps(s: string, t: nat, h: ResponseHead)
    requires t <= |s|
    ensures var r := StatusSpec(s, t, h);
      r.1.version == h.version && multiset(h.headers) <= multiset(r.1.headers)
  {
    var e := TokenEnd(s, t);
    if !(e == t || e == |s|) {
      match ShortValue(s[t..e])
      case None =>
      case Some(code) =>
        var h1 := h.(status := code);
        if s[e] == ' ' {
          var d := LineEnd(s, e + 1);
          if d != |s| {
            var h2 := h1.(description := s[e + 1..d]);
            StatusLineEndKeeps(s, d, h2);
          }
        } else {
          StatusLineEndKeeps(s, e, h1);
        }
    }
  }

  /** A head `parse_response_header` accepts carries a valid version (so
      the `v_invalid` check after it never fires), and the header map only
      grows. */
  lemma AcceptedResponseHasVersion(s: string, h: ResponseHead)
    ensures ResponseHeaderSpec(s, h).0 == ReadOneHeader ==> ResponseHeaderSpec(s, h).1.version != VInvalid
    ensures multiset(h.headers) <= multiset(ResponseHeaderSpec(s, h).1.headers)
  {
    var v := TokenEnd(s, 0);
    if !(v < 6 || v == |s| || s[v] != ' ' || s[..5] != "HTTP/") {
      match VersionOf(s[5..v])
      case None =>
      case Some(ver) =>
        var hv := h.(version := ver);
        StatusKeeps(s, v + 1, hv);
    }
  }

  // ---------------------------------------------------------------
  // The `read_header` phase.

  /** A head step hands out no bytes. Without a CRLF CRLF it changes
      nothing and reports `reading_header`; with one, the cursor moves
      past the earliest terminator whatever the outcome, the header map
      only grows, and `invalid_version` never arises. */
  lemma ResponseHeadStepFacts(m: ResponseState, pipeline: bool)
    ensures ResponseHeadStep(m, pipeline).view == []
    ensures HeaderEnd(m.pending).None? <==> ResponseHeadStep(m, pipeline).result == ReadingHeader
    ensures HeaderEnd(m.pending).None? ==> ResponseHeadStep(m, pipeline).after == m
    ensures HeaderEnd(m.pending).Some? ==>
      ResponseHeadStep(m, pipeline).after.pending == m.pending[HeaderEnd(m.pending).value + 4..]
    ensures multiset(m.head.headers) <= multiset(ResponseHeadStep(m, pipeline).after.head.headers)
    ensures ResponseHeadStep(m, pipeline).result != InvalidVersion
  {
    match HeaderEnd(m.pending)
    case None =>
    case Some(k) =>
      var block := m.pending[..k + 4];
      AcceptedResponseHasVersion(block, m.head);
  }

  /** The phase a state is in after an accepted response head, as the
      framing headers decide it: a positive length is read, a chunked body
      is checked with a fresh validator, and a zero length or no framing
      at all leaves the parser reading heads. */
  predicate ResponsePhaseChosen(a: ResponseState)
  {
    a.head.version != VInvalid && a.readLen == 0
    && (a.status == ReadContent <==>
          BodyFramingOf(a.head.headers).ByLength? && BodyFramingOf(a.head.headers).n > 0)
    && (a.status == ReadContent ==> a.total == BodyFramingOf(a.head.headers).n)
    && (a.status == ReadChunked <==> BodyFramingOf(a.head.headers) == Chunked)
    && (a.status == ReadChunked ==> a.checker == INITIAL)
    && (a.status == ReadHeader <==>
          BodyFramingOf(a.head.headers) == ByLength(0) || BodyFramingOf(a.head.headers) == Unframed)
  }

  lemma ResponseBodyPhaseChosen(m: ResponseState, pipeline: bool)
    requires m.head.version != VInvalid && m.readLen == 0 && m.total == 0
    requires ResponseBodyPhase(m, pipeline).result == ReadOneHeader
    ensures ResponsePhaseChosen(ResponseBodyPhase(m, pipeline).after)
  {
  }

  lemma ResponseAcceptChosen(res: ParserResult, m: ResponseState, pipeline: bool)
    requires AcceptResponseHead(res, m, pipeline).result == ReadOneHeader
    ensures ResponsePhaseChosen(AcceptResponseHead(res, m, pipeline).after)
  {
    var m1 := m.(total := 0, readLen := 0, checker := INITIAL);
    ResponseBodyPhaseChosen(m1, pipeline);
  }

  /** A message that ends with its head is refused exactly when bytes are
      buffered behind it and pipelining is off; the phase is `read_header`
      either way. */
  lemma ResponseHeadOnlyMessage(m: ResponseState, pipeline: bool)
    requires m.head.version != VInvalid
    requires BodyFramingOf(m.head.headers) == ByLength(0) || BodyFramingOf(m.head.headers) == Unframed
    ensures var r := AcceptResponseHead(ReadOneHeader, m, pipeline);
      (r.result == PipelineNotSupported <==> m.pending != [] && !pipeline)
      && (r.result != PipelineNotSupported ==> r.result == ReadOneHeader)
      && r.after.status == ReadHeader
  {
  }

  lemma ResponseHeadStepChosen(m: ResponseState, pipeline: bool)
    requires ResponseHeadStep(m, pipeline).result == ReadOneHeader
    ensures HeaderEnd(m.pending).Some?
    ensures ResponsePhaseChosen(ResponseHeadStep(m, pipeline).after)
  {
    var k := HeaderEnd(m.pending).value;
    var block := m.pending[..k + 4];
    var (res, h) := ResponseHeaderSpec(block, m.head);
    var m1 := m.(pending := m.pending[k + 4..], head := h);
    var st := AcceptResponseHead(res, m1, pipeline);
    assert ResponseHeadStep(m, pipeline) == st;
    ResponseAcceptChosen(res, m1, pipeline);
  }

  /** After an accepted head the framing headers decide the phase, no bytes
      are handed out, and the cursor is past the header block. */
  lemma ResponseAcceptedHeadPhase(m: ResponseState, pipeline: bool)
    requires Steppable(m) && ResponseStep(m, pipeline).result == ReadOneHeader
    ensures m.status == ReadHeader && HeaderEnd(m.pending).Some?
    ensures ResponsePhaseChosen(ResponseStep(m, pipeline).after) && ResponseStep(m, pipeline).view == []
    ensures ResponseStep(m, pipeline).after.pending == m.pending[HeaderEnd(m.pending).value + 4..]
  {
    assert m.status == ReadHeader && m.pending != [];
    var st := ResponseHeadStep(m, pipeline);
    assert ResponseStep(m, pipeline) == st;
    ResponseHeadStepChosen(m, pipeline);
    ResponseHeadStepFacts(m, pipeline);
  }

  // ---------------------------------------------------------------
  // One `parse()` step.

  /** `waiting_input` exactly when nothing is buffered, `reading_header`
      exactly when a head is incomplete; both leave the state as it was.
      `read_header_only_finish` is an invalid status here, and
      `invalid_version` never arises. */
  lemma ResponseStepResults(m: ResponseState, pipeline: bool)
    requires Steppable(m)
    ensures ResponseStep(m, pipeline).result == WaitingInput <==> m.pending == []
    ensures ResponseStep(m, pipeline).result == ReadingHeader <==>
      m.status == ReadHeader && m.pending != [] && HeaderEnd(m.pending).None?
    ensures ResponseStep(m, pipeline).result in {WaitingInput, ReadingHeader} ==>
      ResponseStep(m, pipeline).after == m && ResponseStep(m, pipeline).view == []
    ensures m.status == ReadHeaderOnlyFinish && m.pending != [] ==>
      ResponseStep(m, pipeline) == Step(InvalidParserStatus, [], m)
    ensures ResponseStep(m, pipeline).result != InvalidVersion
  {
    if m.status == ReadHeader && m.pending != [] {
      ResponseHeadStepFacts(m, pipeline);
    }
  }

  // ---------------------------------------------------------------
  // The body phases.

  /** A fixed-length step: more bytes than the remaining target, with
      pipelining off, are refused and nothing changes; otherwise the step
      is the request parser's. */
  lemma ResponseFixedLengthStep(m: ResponseState, pipeline: bool)
    requires Steppable(m) && m.status == ReadContent && m.pending != []
    ensures |m.pending| > m.total - m.readLen && !pipeline ==>
      ResponseStep(m, pipeline) == Step(PipelineNotSupported, [], m)
    ensures |m.pending| <= m.total - m.readLen || pipeline ==>
      ResponseStep(m, pipeline) == ContentStep(m)
      && ResponseStep(m, pipeline).view + ResponseStep(m, pipeline).after.pending == m.pending
  {
    ContentStepSplits(m);
  }

  /** The refusal after a complete chunked body never fires: a successful
      check consumes every buffered byte, so nothing is left behind it, and
      bytes after the body fail the check instead. */
  lemma ChunkedNeverRefusesPipeline(m: ResponseState, pipeline: bool)
    requires Steppable(m) && m.status == ReadChunked
    ensures ResponseStep(m, pipeline).result != PipelineNotSupported
  {
    if m.pending != [] {
      var o := CheckPending(m.checker, m.pending);
      if o.ok {
        assert m.pending[o.consumed..] == [];
      }
    }
  }

  /** A chunked step hands out exactly what the validator consumed: on a
      violation nothing is consumed and the validator is left failed;
      otherwise every buffered byte is consumed and the body ends exactly
      when the validator is complete. */
  lemma ResponseChunkedStep(m: ResponseState, pipeline: bool)
    requires Steppable(m) && m.status == ReadChunked && m.pending != []
    ensures var o := Run(m.checker, m.pending);
      (ResponseStep(m, pipeline).result == ChunkCheckError <==> !o.ok)
      && (!o.ok ==> ResponseStep(m, pipeline).view == [] && ResponseStep(m, pipeline).after.pending == m.pending
                    && ResponseStep(m, pipeline).after.checker.phase == Failed)
      && (o.ok ==> ResponseStep(m, pipeline).view == m.pending
                   && ResponseStep(m, pipeline).after.pending == []
                   && ResponseStep(m, pipeline).after.checker == o.after)
      && (ResponseStep(m, pipeline).result == ReadContentEnd <==> o.ok && o.after.phase == Complete)
  {
    var o := CheckPending(m.checker, m.pending);
    if o.ok {
      assert m.pending[o.consumed..] == [];
      assert m.pending[..o.consumed] == m.pending;
    }
  }

  /** Bytes pipelined behind a complete chunked response fail the check
      rather than being refused as pipelining. */
  lemma ResponseBytesAfterChunkedBodyFail(m: ResponseState, pipeline: bool, body: seq<Byte>, extra: seq<Byte>)
    requires Steppable(m) && m.status == ReadChunked
    requires m.pending == body + extra && extra != []
    requires Run(m.checker, body).ok && Run(m.checker, body).after.phase == Complete
    ensures ResponseStep(m, pipeline).result == ChunkCheckError
    ensures ResponseStep(m, pipeline).view == [] && ResponseStep(m, pipeline).after.pending == m.pending
  {
    CheckSplits(m.checker, body, extra);
    CompleteRejectsMore(Run(m.checker, body).after, extra);
  }
}
