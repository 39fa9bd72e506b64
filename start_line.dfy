/** The start-line parsers of `http_header_parser`: the request line with
    its target dissection, the `Host` re-dissection, and the status line.
    Each is specified by a function over the bytes from the start of the
    message to just past the CRLF CRLF, and implemented by a cursor method
    that writes the head object field by field as the source does. */
module StartLine {
  import opened Text
  import opened HttpConst
  import opened Headers
  import opened HeaderParser
  import opened Uri
  import opened Heads

  predicate NoSpCr(w: string)
  {
    forall k :: 0 <= k < |w| ==> w[k] != ' ' && w[k] != '\r'
  }

  predicate NoCr(w: string)
  {
    forall k :: 0 <= k < |w| ==> w[k] != '\r'
  }

  /** Where a cursor loop `for (; iter != end && *iter != ' ' && *iter !=
      '\r'; ++iter)` started at `i` stops. */
  function TokenEnd(s: string, i: nat): (j: nat)
    requires i <= |s|
    decreases |s| - i
    ensures i <= j <= |s|
    ensures forall k :: i <= k < j ==> s[k] != ' ' && s[k] != '\r'
    ensures j < |s| ==> s[j] == ' ' || s[j] == '\r'
  {
    if i == |s| || s[i] == ' ' || s[i] == '\r' then i else TokenEnd(s, i + 1)
  }

  /** Where a loop that stops only at CR, started at `i`, stops. */
  function LineEnd(s: string, i: nat): (j: nat)
    requires i <= |s|
    decreases |s| - i
    ensures i <= j <= |s|
    ensures forall k :: i <= k < j ==> s[k] != '\r'
    ensures j < |s| ==> s[j] == '\r'
  {
    if i == |s| || s[i] == '\r' then i else LineEnd(s, i + 1)
  }

  /** The port and status checks: a `uint32_t` parse that must then be
      below `numeric_limits<uint16_t>::max()`, i.e. 65535 itself is
      refused. */
  function ShortValue(text: string): (r: Option<nat>)
    ensures r.Some? <==> ParseUnsigned(text, UINT32_LIMIT).Some? && DecimalValue(text) < UINT16_MAX
    ensures r.Some? ==> r.value == DecimalValue(text) && r.value < UINT16_MAX
  {
    match ParseUnsigned(text, UINT32_LIMIT)
    case None => None
    case Some(v) => if v >= UINT16_MAX then None else Some(v)
  }

  lemma ShortValueOfNat(n: nat)
    ensures ShortValue(NatToString(n)) == if n < UINT16_MAX then Some(n) else None
  {
    ParsePrintRoundTrip(n, UINT32_LIMIT);
    DecimalOfNatToString(n);
  }

  // ---------------------------------------------------------------
  // `parse_uri`

  /** `parse_uri(uri, header)`: the flag it returns and the head after it.
      A target with `://` goes through the absolute-URI pattern. On a
      mismatch the function returns `invalid_uri`, which converts to the
      `bool` true, so the caller sees success with nothing written. On a
      match scheme and host are written first; a port group that fails the
      checks returns false with those two already written. Without `://`
      the host pattern is used, and its path group is written only when it
      took part in the match. */
  function ParseUri(uri: string, h: RequestHead): (r: (bool, RequestHead))
    ensures r.1.methodName == h.methodName && r.1.version == h.version && r.1.headers == h.headers
  {
    if IndexOf(uri, "://", 0).Some? then
      match SplitAbsolute(uri)
      case None => (true, h)
      case Some(d) =>
        var h1 := h.(scheme := d.scheme, host := d.host);
        if d.port.Some? && ShortValue(d.port.value).None? then (false, h1)
        else
          var h2 := if d.port.Some? then h1.(port := ShortValue(d.port.value).value) else h1;
          (true, h2.(pathAndQuery := PathText(d.path)))
    else
      match SplitHost(OptPortOptPath, uri)
      case None => (false, h)
      case Some(d) =>
        var h1 := h.(host := d.host);
        if d.port.Some? && ShortValue(d.port.value).None? then (false, h1)
        else
          var h2 := if d.port.Some? then h1.(port := ShortValue(d.port.value).value) else h1;
          (true, if d.path.Some? then h2.(pathAndQuery := d.path.value) else h2)
  }

  /** The request-target step of `parse_request_header`: a CONNECT target
      must be `host:digits` with a short port (any failure is reported as
      `buffer_overflow`); an absolute URI goes through `parse_uri`; any
      other target is origin form, with scheme `http` and port 80. */
  function DissectTarget(uri: string, h: RequestHead): (r: (ParserResult, RequestHead))
    ensures r.0 in {ReadOneHeader, BufferOverflow, InvalidUri}
    ensures r.1.methodName == h.methodName && r.1.version == h.version && r.1.headers == h.headers
  {
    if h.methodName == "CONNECT" then
      match SplitHost(PortOnly, uri)
      case None => (BufferOverflow, h)
      case Some(d) =>
        var h1 := h.(host := d.host);
        match ShortValue(d.port.value)
        case None => (BufferOverflow, h1)
        case Some(p) => (ReadOneHeader, h1.(port := p))
    else if IndexOf(uri, "://", 0).Some? then
      var (ok, h1) := ParseUri(uri, h);
      (if ok then ReadOneHeader else InvalidUri, h1)
    else (ReadOneHeader, h.(scheme := "http", pathAndQuery := uri, port := 80))
  }

  // ---------------------------------------------------------------
  // `parse_request_header`, as a function of the bytes.

  function RequestHeaderSpec(s: string, h: RequestHead): (r: (ParserResult, RequestHead))
  {
    var m := TokenEnd(s, 0);
    if m == 0 || m == |s| || s[m] != ' ' then (BufferOverflow, h)
    else RequestTargetSpec(s, m + 1, h.(methodName := s[..m]))
  }

  function RequestTargetSpec(s: string, i: nat, h: RequestHead): (r: (ParserResult, RequestHead))
    requires i <= |s|
  {
    var u := TokenEnd(s, i);
    if u == i || u == |s| || s[u] != ' ' then (BufferOverflow, h)
    else TargetThen(s, u, DissectTarget(s[i..u], h))
  }

  /** After the target at `s[..u]` was dissected with outcome `d`: stop on
      failure, otherwise read the version from `u + 1`. */
  function TargetThen(s: string, u: nat, d: (ParserResult, RequestHead)): (r: (ParserResult, RequestHead))
    requires u < |s|
  {
    if d.0 != ReadOneHeader then d else RequestVersionSpec(s, u + 1, d.1)
  }

  function RequestVersionSpec(s: string, i: nat, h: RequestHead): (r: (ParserResult, RequestHead))
    requires i <= |s|
  {
    var e := LineEnd(s, i);
    if e == |s| || e - i < 6 || s[i..i + 5] != "HTTP/" then (BufferOverflow, h)
    else
      match VersionOf(s[i + 5..e])
      case None => (InvalidVersion, h)
      case Some(v) =>
        if e + 1 == |s| || s[e + 1] != '\n' then (BufferOverflow, h.(version := v))
        else RequestFieldsSpec(s[e + 2..], h.(version := v))
  }

  /** The header block of a request, then the `Host` step. */
  function RequestFieldsSpec(block: string, h: RequestHead): (r: (ParserResult, RequestHead))
  {
    var (res, n, hs) := ParseHeadersSpec(block, h.headers);
    if Ordinal(res) >= Ordinal(ParseError) then (res, h.(headers := hs))
    else HostThen(h.(headers := hs))
  }

  /** After the header block: a `Host` value, if there is one, is fed to
      `parse_uri`, and a false result there is `invalid_uri`. */
  function HostThen(h: RequestHead): (r: (ParserResult, RequestHead))
  {
    match Find(h.headers, "Host")
    case None => (ReadOneHeader, h)
    case Some(v) =>
      var (ok, h1) := ParseUri(v, h);
      (if ok then ReadOneHeader else InvalidUri, h1)
  }

  // ---------------------------------------------------------------
  // `parse_response_header`, as a function of the bytes.

  function ResponseHeaderSpec(s: string, h: ResponseHead): (r: (ParserResult, ResponseHead))
  {
    var v := TokenEnd(s, 0);
    if v < 6 || v == |s| || s[v] != ' ' || s[..5] != "HTTP/" then (BufferOverflow, h)
    else
      match VersionOf(s[5..v])
      case None => (InvalidVersion, h)
      case Some(ver) => StatusSpec(s, v + 1, h.(version := ver))
  }

  function StatusSpec(s: string, t: nat, h: ResponseHead): (r: (ParserResult, ResponseHead))
    requires t <= |s|
  {
    var e := TokenEnd(s, t);
    if e == t || e == |s| then (BufferOverflow, h)
    else
      match ShortValue(s[t..e])
      case None => (BufferOverflow, h)
      case Some(code) => StatusRestSpec(s, e, h.(status := code))
  }

  /** From the byte after the status code on: an optional description up
      to the CR, then the end of the line. */
  function StatusRestSpec(s: string, e: nat, h: ResponseHead): (r: (ParserResult, ResponseHead))
    requires e < |s|
  {
    if s[e] == ' ' then
      var d := LineEnd(s, e + 1);
      if d == |s| then (BufferOverflow, h)
      else StatusLineEndSpec(s, d, h.(description := s[e + 1..d]))
    else StatusLineEndSpec(s, e, h)
  }

  /** From the CR of the status line on. The source reads the byte after
      the CR without checking for the end; here that case fails. Any
      failure of the header block is reported as `parse_error`. */
  function StatusLineEndSpec(s: string, i: nat, h: ResponseHead): (r: (ParserResult, ResponseHead))
    requires i < |s|
  {
    if s[i] != '\r' || i + 1 == |s| || s[i + 1] != '\n' then (BufferOverflow, h)
    else
      var (res, n, hs) := ParseHeadersSpec(s[i + 2..], h.headers);
      (if Ordinal(res) >= Ordinal(ParseError) then ParseError else ReadOneHeader, h.(headers := hs))
  }

  // ---------------------------------------------------------------
  // The cursor methods.

  /** `parse_uri`, writing into the head object. */
  method ParseUriInto(uri: string, hd: RequestHeader) returns (ok: bool)
    modifies hd
    ensures (ok, hd.Model()) == ParseUri(uri, old(hd.Model()))
  {
    if IndexOf(uri, "://", 0).Some? {
      var m := SplitAbsolute(uri);
      if m.None? {
        return true;
      }
      var d := m.value;
      hd.scheme := d.scheme;
      hd.host := d.host;
      if d.port.Some? {
        var p := ShortValue(d.port.value);
        if p.None? {
          return false;
        }
        hd.port := p.value;
      }
      hd.pathAndQuery := PathText(d.path);
      return true;
    } else {
      var m := SplitHost(OptPortOptPath, uri);
      if m.None? {
        return false;
      }
      var d := m.value;
      hd.host := d.host;
      if d.port.Some? {
        var p := ShortValue(d.port.value);
        if p.None? {
          return false;
        }
        hd.port := p.value;
      }
      if d.path.Some? {
        hd.pathAndQuery := d.path.value;
      }
      return true;
    }
  }

  /** Advances a cursor from `i` to the first SP or CR (or the end). */
  method ScanToken(s: seq<Byte>, i: nat) returns (j: nat)
    requires i <= |s|
    ensures j == TokenEnd(s, i)
  {
    j := i;
    while j != |s| && s[j] != ' ' && s[j] != '\r'
      invariant i <= j <= |s|
      invariant TokenEnd(s, j) == TokenEnd(s, i)
      decreases |s| - j
    {
      j := j + 1;
    }
  }

  /** Advances a cursor from `i` to the first CR (or the end). */
  method ScanLine(s: seq<Byte>, i: nat) returns (j: nat)
    requires i <= |s|
    ensures j == LineEnd(s, i)
  {
    j := i;
    while j != |s| && s[j] != '\r'
      invariant i <= j <= |s|
      invariant LineEnd(s, j) == LineEnd(s, i)
      decreases |s| - j
    {
      j := j + 1;
    }
  }

  /** `parse_request_header(begin, end, header)`. */
  method ParseRequestHeader(s: seq<Byte>, hd: RequestHeader) returns (res: ParserResult)
    modifies hd
    ensures (res, hd.Model()) == RequestHeaderSpec(s, old(hd.Model()))
  {
    var iter := ScanToken(s, 0);
    if iter == 0 || iter == |s| || s[iter] != ' ' {
      return BufferOverflow;
    }
    res := ParseMethodThen(s, iter, hd);
  }

  /** The method token is stored, then the target step follows. */
  method ParseMethodThen(s: seq<Byte>, iter: nat, hd: RequestHeader) returns (res: ParserResult)
    requires iter < |s|
    modifies hd
    ensures (res, hd.Model()) == RequestTargetSpec(s, iter + 1, old(hd.Model()).(methodName := s[..iter]))
  {
    hd.methodName := s[..iter];
    res := ParseRequestTarget(s, iter + 1, hd);
  }

  /** The target step and what follows it. */
  method ParseRequestTarget(s: seq<Byte>, tmp: nat, hd: RequestHeader) returns (res: ParserResult)
    requires tmp <= |s|
    modifies hd
    ensures (res, hd.Model()) == RequestTargetSpec(s, tmp, old(hd.Model()))
  {
    var iter := ScanToken(s, tmp);
    if iter == tmp || iter == |s| || s[iter] != ' ' {
      return BufferOverflow;
    }
    var requestUri := s[tmp..iter];
    var dissected := DissectTargetInto(requestUri, hd);
    res := ParseTargetThen(s, iter, dissected, hd);
  }

  /** After the target: stop on a failed dissection, otherwise go on with
      the version. */
  method ParseTargetThen(s: seq<Byte>, iter: nat, dissected: ParserResult, hd: RequestHeader) returns (res: ParserResult)
    requires iter < |s|
    modifies hd
    ensures (res, hd.Model()) == TargetThen(s, iter, (dissected, old(hd.Model())))
  {
    if dissected != ReadOneHeader {
      return dissected;
    }
    res := ParseRequestVersion(s, iter + 1, hd);
  }

  /** The target step of `parse_request_header`. */
  method DissectTargetInto(uri: string, hd: RequestHeader) returns (res: ParserResult)
    modifies hd
    ensures (res, hd.Model()) == DissectTarget(uri, old(hd.Model()))
  {
    if hd.methodName == "CONNECT" {
      var m := SplitHost(PortOnly, uri);
      if m.None? {
        return BufferOverflow;
      }
      hd.host := m.value.host;
      var p := ShortValue(m.value.port.value);
      if p.None? {
        return BufferOverflow;
      }
      hd.port := p.value;
      return ReadOneHeader;
    } else if IndexOf(uri, "://", 0).Some? {
      var ok := ParseUriInto(uri, hd);
      return if ok then ReadOneHeader else InvalidUri;
    } else {
      hd.scheme := "http";
      hd.pathAndQuery := uri;
      hd.port := 80;
      return ReadOneHeader;
    }
  }

  /** The version, the end of the request line, the header block and the
      `Host` re-dissection. */
  method ParseRequestVersion(s: seq<Byte>, tmp: nat, hd: RequestHeader) returns (res: ParserResult)
    requires tmp <= |s|
    modifies hd
    ensures (res, hd.Model()) == RequestVersionSpec(s, tmp, old(hd.Model()))
  {
    ghost var h0 := hd.Model();
    var iter := ScanLine(s, tmp);
    if iter == |s| || iter - tmp < 6 || s[tmp..tmp + 5] != "HTTP/" {
      return BufferOverflow;
    }
    var v := VersionOf(s[tmp + 5..iter]);
    if v.None? {
      return InvalidVersion;
    }
    hd.version := v.value;
    ghost var h1 := h0.(version := v.value);
    assert hd.Model() == h1;
    if iter + 1 == |s| || s[iter + 1] != '\n' {
      return BufferOverflow;
    }
    var block := s[iter + 2..];
    res := ParseRequestFields(block, hd);
    assert (res, hd.Model()) == RequestFieldsSpec(block, h1);
  }

  /** The header block of a request and the `Host` re-dissection. */
  method ParseRequestFields(block: seq<Byte>, hd: RequestHeader) returns (res: ParserResult)
    modifies hd
    ensures (res, hd.Model()) == RequestFieldsSpec(block, old(hd.Model()))
  {
    var r, n, hs := ParseHeaders(block, hd.headersMap);
    hd.headersMap := hs;
    if Ordinal(r) >= Ordinal(ParseError) {
      return r;
    }
    var host := Find(hd.headersMap, "Host");
    if host.Some? {
      var ok := ParseUriInto(host.value, hd);
      if !ok {
        return InvalidUri;
      }
    }
    return ReadOneHeader;
  }

  /** `parse_response_header(begin, end, header)`. */
  method ParseResponseHeader(s: seq<Byte>, hd: ResponseHeader) returns (res: ParserResult)
    modifies hd
    ensures (res, hd.Model()) == ResponseHeaderSpec(s, old(hd.Model()))
  {
    var iter := ScanToken(s, 0);
    if iter < 6 || iter == |s| || s[iter] != ' ' || s[..5] != "HTTP/" {
      return BufferOverflow;
    }
    var v := VersionOf(s[5..iter]);
    if v.None? {
      return InvalidVersion;
    }
    hd.version := v.value;
    res := ParseStatus(s, iter + 1, hd);
  }

  /** The status token and the optional description. */
  method ParseStatus(s: seq<Byte>, tmp: nat, hd: ResponseHeader) returns (res: ParserResult)
    requires tmp <= |s|
    modifies hd
    ensures (res, hd.Model()) == StatusSpec(s, tmp, old(hd.Model()))
  {
    var iter := ScanToken(s, tmp);
    if tmp == iter || iter == |s| {
      return BufferOverflow;
    }
    var code := ShortValue(s[tmp..iter]);
    if code.None? {
      return BufferOverflow;
    }
    res := ParseStatusRest(s, iter, code.value, hd);
  }

  /** The status code is stored; then the optional description and the
      end of the line. */
  method ParseStatusRest(s: seq<Byte>, iter: nat, code: StatusCode, hd: ResponseHeader) returns (res: ParserResult)
    requires iter < |s|
    modifies hd
    ensures (res, hd.Model()) == StatusRestSpec(s, iter, old(hd.Model()).(status := code))
  {
    hd.statusCode := code;
    var lineEnd := iter;
    if s[iter] == ' ' {
      var start := iter + 1;
      lineEnd := ScanLine(s, start);
      if lineEnd == |s| || s[lineEnd] != '\r' {
        return BufferOverflow;
      }
      hd.statusDescription := s[start..lineEnd];
    }
    res := FinishStatusLine(s, lineEnd, hd);
  }

  /** The CRLF that ends the status line, then the header block. */
  method FinishStatusLine(s: seq<Byte>, iter: nat, hd: ResponseHeader) returns (res: ParserResult)
    requires iter < |s|
    modifies hd
    ensures (res, hd.Model()) == StatusLineEndSpec(s, iter, old(hd.Model()))
  {
    if s[iter] != '\r' {
      return BufferOverflow;
    }
    if iter + 1 == |s| || s[iter + 1] != '\n' {
      return BufferOverflow;
    }
    var r, n, hs := ParseHeaders(s[iter + 2..], hd.headersMap);
    hd.headersMap := hs;
    if Ordinal(r) >= Ordinal(ParseError) {
      return ParseError;
    }
    return ReadOneHeader;
  }
}
