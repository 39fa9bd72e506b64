/** What one `parse()` step of the request parser does, stated over
    `RequestStep`: which result codes arise when, what is consumed, and
    the phase chosen after a head. */
module RequestFacts {
  import opened Text
  import opened HttpConst
  import opened Headers
  import opened ChunkParsing
  import opened Heads
  import opened StartLine
  import opened StartLineFacts
  import opened Framing
  import opened RequestParsing

  // ---------------------------------------------------------------
  // What `parse_request_header` leaves in the head.

  /** The header block and the `Host` step never touch the version, and
      they only add header entries. */
  lemma FieldsKeepVersion(block: string, h: RequestHead)
    ensures RequestFieldsSpec(block, h).1.version == h.version
    ensures multiset(h.headers) <= multiset(RequestFieldsSpec(block, h).1.headers)
  {
  }

  lemma VersionLineSetsVersion(s: string, i: nat, h: RequestHead)
    requires i <= |s|
    ensures var r := RequestVersionSpec(s, i, h);
      (r.0 == ReadOneHeader ==> r.1.version != VInvalid) && multiset(h.headers) <= multiset(r.1.headers)
  {
    var e := LineEnd(s, i);
    if i + 6 <= e && e + 1 < |s| && s[i..i + 5] == "HTTP/" && s[e + 1] == '\n' {
      var vt := s[i + 5..e];
      var block := s[e + 2..];
      VersionStops(s, i, e, vt, block, h);
      match VersionOf(vt)
      case None =>
      case Some(v) =>
        var hv := h.(version := v);
        FieldsKeepVersion(block, hv);
    }
  }

  lemma TargetThenKeeps(s: string, u: nat, d: (ParserResult, RequestHead))
    requires u < |s|
    ensures TargetThen(s, u, d).0 == ReadOneHeader ==> TargetThen(s, u, d).1.version != VInvalid
    ensures multiset(d.1.headers) <= multiset(TargetThen(s, u, d).1.headers)
  {
    if d.0 == ReadOneHeader {
      VersionLineSetsVersion(s, u + 1, d.1);
    }
  }

  lemma TargetKeeps(s: string, i: nat, h: RequestHead)
    requires i <= |s|
    ensures RequestTargetSpec(s, i, h).0 == ReadOneHeader ==> RequestTargetSpec(s, i, h).1.version != VInvalid
    ensures multiset(h.headers) <= multiset(RequestTargetSpec(s, i, h).1.headers)
  {
    var u := TokenEnd(s, i);
    if !(u == i || u == |s| || s[u] != ' ') {
      var d := DissectTarget(s[i..u], h);
      TargetThenKeeps(s, u, d);
    }
  }

  /** A head `parse_request_header` accepts carries a valid version (so
      the `valid_version` check after it never fails), and the header map
      only grows. */
  lemma AcceptedHeadHasVersion(s: string, h: RequestHead)
    ensures RequestHeaderSpec(s, h).0 == ReadOneHeader ==> ValidVersion(RequestHeaderSpec(s, h).1)
    ensures multiset(h.headers) <= multiset(RequestHeaderSpec(s, h).1.headers)
  {
    var m := TokenEnd(s, 0);
    if !(m == 0 || m == |s| || s[m] != ' ') {
      TargetKeeps(s, m + 1, h.(methodName := s[..m]));
    }
  }

  // ---------------------------------------------------------------
  // The `read_header` phase.

  /** A head step hands out no bytes. Without a CRLF CRLF it changes
      nothing and reports `reading_header`; with one, the cursor moves
      past the earliest terminator whatever the outcome, the header map
      only grows, and `invalid_version` never arises. */
  lemma HeadStepFacts(m: RequestState)
    ensures RequestHeadStep(m).view == []
    ensures HeaderEnd(m.pending).None? <==> RequestHeadStep(m).result == ReadingHeader
    ensures HeaderEnd(m.pending).None? ==> RequestHeadStep(m).after == m
    ensures HeaderEnd(m.pending).Some? ==>
      RequestHeadStep(m).after.pending == m.pending[HeaderEnd(m.pending).value + 4..]
    ensures multiset(m.head.headers) <= multiset(RequestHeadStep(m).after.head.headers)
    ensures RequestHeadStep(m).result != InvalidVersion
  {
    match HeaderEnd(m.pending)
    case None =>
    case Some(k) =>
      var block := m.pending[..k + 4];
      AcceptedHeadHasVersion(block, m.head);
  }

  // ---------------------------------------------------------------
  // One `parse()` step.

  /** `waiting_input` exactly when nothing is buffered (outside the
      bodyless hand-over), `reading_header` exactly when a head is
      incomplete; both leave the state as it was. `invalid_version` never
      arises. */
  lemma StepResults(m: RequestState)
    requires Steppable(m)
    ensures RequestStep(m).result == WaitingInput <==>
      m.status != ReadHeaderOnlyFinish && m.pending == []
    ensures RequestStep(m).result == ReadingHeader <==>
      m.status == ReadHeader && m.pending != [] && HeaderEnd(m.pending).None?
    ensures RequestStep(m).result in {WaitingInput, ReadingHeader} ==>
      RequestStep(m).after == m && RequestStep(m).view == []
    ensures RequestStep(m).result != InvalidVersion
  {
    if m.status == ReadHeader && m.pending != [] {
      HeadStepFacts(m);
    }
  }

  /** The phase a state is in after an accepted head, as the method and
      the framing headers decide it. */
  predicate PhaseChosen(a: RequestState)
  {
    ValidMethod(a.head) && ValidVersion(a.head) && a.readLen == 0
    && (a.status == ReadHeaderOnlyFinish <==> IsBodylessMethod(a.head.methodName))
    && (a.status == ReadContent <==>
          IsBodyMethod(a.head.methodName) && BodyFramingOf(a.head.headers).ByLength?)
    && (a.status == ReadContent ==> a.total == BodyFramingOf(a.head.headers).n)
    && (a.status == ReadChunked <==>
          IsBodyMethod(a.head.methodName) && BodyFramingOf(a.head.headers) == Chunked)
    && (a.status == ReadChunked ==> a.checker == INITIAL)
  }

  lemma BodyPhaseChosen(m: RequestState)
    requires ValidMethod(m.head) && ValidVersion(m.head) && m.readLen == 0
    requires RequestBodyPhase(m).result == ReadOneHeader
    ensures PhaseChosen(RequestBodyPhase(m).after)
  {
    assert IsBodylessMethod(m.head.methodName) || IsBodyMethod(m.head.methodName);
  }

  lemma AcceptChosen(res: ParserResult, m: RequestState)
    requires AcceptRequestHead(res, m).result == ReadOneHeader
    ensures PhaseChosen(AcceptRequestHead(res, m).after)
  {
    var m1 := m.(total := 0, readLen := 0, checker := INITIAL);
    BodyPhaseChosen(m1);
  }

  /** After an accepted head the method and the framing headers alone
      decide the phase: bodyless methods wait to hand over an empty body,
      POST and PUT read a fixed length or a chunked body with a fresh
      validator. The head's method and version are valid, no bytes are
      handed out, and the cursor is past the header block. */
  lemma AcceptedHeadPhase(m: RequestState)
    requires Steppable(m) && RequestStep(m).result == ReadOneHeader
    ensures m.status == ReadHeader && HeaderEnd(m.pending).Some?
    ensures PhaseChosen(RequestStep(m).after) && RequestStep(m).view == []
    ensures RequestStep(m).after.pending == m.pending[HeaderEnd(m.pending).value + 4..]
  {
    assert m.status == ReadHeader && m.pending != [];
    HeadStepFacts(m);
    var k := HeaderEnd(m.pending).value;
    var block := m.pending[..k + 4];
    var (res, h) := RequestHeaderSpec(block, m.head);
    var m1 := m.(pending := m.pending[k + 4..], head := h);
    AcceptChosen(res, m1);
  }

  /** GET, HEAD, DELETE and CONNECT: the step after the head reports the
      end of an empty body and returns to reading heads, whatever is
      buffered. */
  lemma BodylessThenContentEnd(m: RequestState)
    requires Steppable(m) && RequestStep(m).result == ReadOneHeader
    requires IsBodylessMethod(RequestStep(m).after.head.methodName)
    ensures Steppable(RequestStep(m).after)
    ensures RequestStep(RequestStep(m).after) ==
      Step(ReadContentEnd, [], RequestStep(m).after.(status := ReadHeader))
  {
    AcceptedHeadPhase(m);
  }

  // ---------------------------------------------------------------
  // The body phases.

  /** A fixed-length step hands out the front of the buffered bytes and
      keeps the rest: all of them until the target is buffered, then
      exactly the remaining target, back in `read_header`. */
  lemma FixedLengthStep(m: RequestState)
    requires Steppable(m) && m.status == ReadContent && m.pending != []
    ensures RequestStep(m).view + RequestStep(m).after.pending == m.pending
    ensures RequestStep(m).result == ReadContentEnd <==> m.total - m.readLen <= |m.pending|
    ensures RequestStep(m).result == ReadContentEnd ==>
      |RequestStep(m).view| == m.total - m.readLen && RequestStep(m).after.status == ReadHeader
    ensures RequestStep(m).result == ReadSomeContent ==>
      RequestStep(m).view == m.pending && RequestStep(m).after == m.(pending := [])
  {
    ContentStepSplits(m);
  }

  /** `Content-Length: 0` enters `read_content` and then stalls: with the
      buffer drained the step reports `waiting_input`, and only once a
      byte of the next message is buffered does it report the (empty)
      body's end. */
  lemma ZeroLengthStalls(m: RequestState)
    requires m.status == ReadContent && m.total == 0 && m.readLen == 0
    ensures Steppable(m)
    ensures RequestStep(m).result == if m.pending == [] then WaitingInput else ReadContentEnd
    ensures RequestStep(m).view == [] && RequestStep(m).after.pending == m.pending
  {
  }

  /** A body split across appends is over-read: `read_content_length` is
      never advanced, so after a first piece `b1` the target is still the
      whole length, and the step that sees the rest `b2` of the body hands
      out `|b1|` bytes of the next message `next` with it. */
  lemma SplitBodyOverreads(m: RequestState, b1: seq<Byte>, b2: seq<Byte>, next: seq<Byte>)
    requires m.status == ReadContent && m.readLen == 0 && m.total == |b1| + |b2|
    requires m.pending == b1 && b1 != [] && b2 != [] && |b1| <= |next|
    ensures Steppable(m) && RequestStep(m) == Step(ReadSomeContent, b1, m.(pending := []))
    ensures var m2 := m.(pending := b2 + next);
      RequestStep(m2).result == ReadContentEnd
      && RequestStep(m2).view == b2 + next[..|b1|]
      && RequestStep(m2).after.pending == next[|b1|..]
  {
    var m2 := m.(pending := b2 + next);
    var total := |b1| + |b2|;
    assert (b2 + next)[..total] == b2 + next[..|b1|];
    assert (b2 + next)[total..] == next[|b1|..];
  }

  /** A chunked step hands out exactly what the validator consumed: on a
      violation nothing is consumed and the validator is left failed;
      otherwise every buffered byte is consumed and the body ends exactly
      when the validator is complete. */
  lemma ChunkedStep(m: RequestState)
    requires Steppable(m) && m.status == ReadChunked && m.pending != []
    ensures var o := Run(m.checker, m.pending);
      (RequestStep(m).result == ChunkCheckError <==> !o.ok)
      && (!o.ok ==> RequestStep(m).view == [] && RequestStep(m).after.pending == m.pending
                    && RequestStep(m).after.checker.phase == Failed)
      && (o.ok ==> RequestStep(m).view == m.pending && RequestStep(m).after.checker == o.after)
      && (RequestStep(m).result == ReadContentEnd <==> o.ok && o.after.phase == Complete)
      && (RequestStep(m).result == ReadContentEnd ==> RequestStep(m).after.status == ReadHeader)
  {
    var o := CheckPending(m.checker, m.pending);
  }

  /** Bytes buffered behind a complete chunked body are a violation at
      once: a pipelined request after a chunked one gets
      `chunk_check_error`, and the body's own bytes are not handed out. */
  lemma BytesAfterChunkedBodyFail(m: RequestState, body: seq<Byte>, extra: seq<Byte>)
    requires Steppable(m) && m.status == ReadChunked
    requires m.pending == body + extra && extra != []
    requires Run(m.checker, body).ok && Run(m.checker, body).after.phase == Complete
    ensures RequestStep(m).result == ChunkCheckError
    ensures RequestStep(m).view == [] && RequestStep(m).after.pending == m.pending
  {
    CheckSplits(m.checker, body, extra);
    CompleteRejectsMore(Run(m.checker, body).after, extra);
  }
}
