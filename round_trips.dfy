/** Whole start lines and header blocks: the status line split, the
    round trips of both heads through `encode_to_data` and the start-line
    parsers, and the `Host` re-dissection of an origin-form request. */
module RoundTrips {
  import opened Text
  import opened HttpConst
  import opened Headers
  import opened HeaderParser
  import opened Uri
  import opened Heads
  import opened StartLine
  import opened StartLineFacts

  // ---------------------------------------------------------------
  // The status line, piece by piece.

  lemma VersionTokenStops(s: string, v: nat, h: ResponseHead)
    requires 6 <= v < |s| && TokenEnd(s, 0) == v && s[v] == ' ' && s[..5] == "HTTP/"
    ensures ResponseHeaderSpec(s, h) ==
      match VersionOf(s[5..v])
      case None => (InvalidVersion, h)
      case Some(ver) => StatusSpec(s, v + 1, h.(version := ver))
  {
  }

  /** `HTTP/` and the version digits up to the first SP; only "1.0" and
      "1.1" go on to the status code. */
  lemma ResponseVersionAt(vt: string, rest: string, h: ResponseHead)
    requires vt != [] && NoSpCr(vt)
    ensures ResponseHeaderSpec("HTTP/" + vt + " " + rest, h) ==
      match VersionOf(vt)
      case None => (InvalidVersion, h)
      case Some(ver) => StatusSpec("HTTP/" + vt + " " + rest, |vt| + 6, h.(version := ver))
  {
    var s := "HTTP/" + vt + " " + rest;
    var w := "HTTP/" + vt;
    assert s[0..] == w + (" " + rest);
    assert NoSpCr(w) by {
      forall k | 0 <= k < |w| ensures w[k] != ' ' && w[k] != '\r' {
        if k >= 5 {
          assert w[k] == vt[k - 5];
        }
      }
    }
    TokenEndSuffix(s, 0, w, " " + rest);
    assert s[..5] == w[..5];
    assert s[5..|w|] == w[5..] == vt;
    VersionTokenStops(s, |w|, h);
  }

  lemma BadCodeStops(s: string, t: nat, e: nat, h: ResponseHead)
    requires t < e < |s| && TokenEnd(s, t) == e && ShortValue(s[t..e]).None?
    ensures StatusSpec(s, t, h) == (BufferOverflow, h)
  {
  }

  lemma DescriptionStops(s: string, t: nat, e: nat, d: nat, c: nat, desc: string, h: ResponseHead)
    requires t < e < d < |s| && TokenEnd(s, t) == e && s[e] == ' ' && LineEnd(s, e + 1) == d
    requires ShortValue(s[t..e]) == Some(c) && s[e + 1..d] == desc
    ensures c < 0x10000
    ensures StatusSpec(s, t, h) == StatusLineEndSpec(s, d, h.(status := c, description := desc))
  {
  }

  lemma CodeOnlyStops(s: string, t: nat, e: nat, c: nat, h: ResponseHead)
    requires t < e < |s| && TokenEnd(s, t) == e && s[e] != ' '
    requires ShortValue(s[t..e]) == Some(c)
    ensures c < 0x10000
    ensures StatusSpec(s, t, h) == StatusLineEndSpec(s, e, h.(status := c))
  {
  }

  lemma CodeFacts(s: string, t: nat, e: nat, code: string, r: string)
    requires t <= |s| && s[t..] == code + (" " + r) && code != [] && NoSpCr(code) && e == t + |code|
    ensures e < |s| && TokenEnd(s, t) == e && s[t..e] == code && s[e] == ' ' && s[e + 1..] == r
  {
    var r1 := " " + r;
    TokenEndSuffix(s, t, code, r1);
    SuffixStep(s, t, code, r1);
    SuffixStep(s, e, " ", r);
  }

  lemma DescFacts(s: string, i: nat, d: nat, desc: string, more: string)
    requires i <= |s| && s[i..] == desc + ("\r" + more) && NoCr(desc) && d == i + |desc|
    ensures d < |s| && LineEnd(s, i) == d && s[i..d] == desc && s[d..] == "\r" + more
  {
    var r := "\r" + more;
    LineEndSuffix(s, i, desc, r);
    SuffixStep(s, i, desc, r);
  }

  /** A status code, SP, and a description up to the CR at `d`. */
  lemma StatusWithDescription(s: string, t: nat, d: nat, code: string, c: nat, desc: string, more: string, h: ResponseHead)
    requires t <= |s| && s[t..] == code + (" " + (desc + ("\r" + more)))
    requires d == t + |code| + 1 + |desc|
    requires code != [] && NoSpCr(code) && NoCr(desc) && ShortValue(code) == Some(c)
    ensures c < 0x10000
    ensures d < |s| && s[d..] == "\r" + more
    ensures StatusSpec(s, t, h) == StatusLineEndSpec(s, d, h.(status := c, description := desc))
  {
    var e := t + |code|;
    var r := desc + ("\r" + more);
    CodeFacts(s, t, e, code, r);
    DescFacts(s, e + 1, d, desc, more);
    DescriptionStops(s, t, e, d, c, desc, h);
  }

  lemma CodeOnlyFacts(s: string, t: nat, code: string, more: string)
    requires t <= |s| && s[t..] == code + ("\r" + more)
    requires code != [] && NoSpCr(code)
    ensures t + |code| < |s|
    ensures TokenEnd(s, t) == t + |code| && s[t..t + |code|] == code && s[t + |code|] == '\r'
    ensures s[t + |code|..] == "\r" + more
  {
    TokenEndSuffix(s, t, code, "\r" + more);
    SuffixStep(s, t, code, "\r" + more);
  }

  /** A status code directly followed by the CR: the description is left
      as it was. */
  lemma StatusWithoutDescription(s: string, t: nat, code: string, c: nat, more: string, h: ResponseHead)
    requires t <= |s| && s[t..] == code + ("\r" + more)
    requires code != [] && NoSpCr(code) && ShortValue(code) == Some(c)
    ensures c < 0x10000 && t + |code| < |s|
    ensures StatusSpec(s, t, h) == StatusLineEndSpec(s, t + |code|, h.(status := c))
  {
    CodeOnlyFacts(s, t, code, more);
    CodeOnlyStops(s, t, t + |code|, c, h);
  }

  /** A status code the parser cannot hold fails the whole line, whatever
      follows it. */
  lemma StatusOutOfRange(s: string, t: nat, code: string, rest: string, h: ResponseHead)
    requires t <= |s| && s[t..] == code + rest && code != [] && NoSpCr(code)
    requires rest != [] && (rest[0] == ' ' || rest[0] == '\r') && ShortValue(code).None?
    ensures StatusSpec(s, t, h) == (BufferOverflow, h)
  {
    TokenEndSuffix(s, t, code, rest);
    BadCodeStops(s, t, t + |code|, h);
  }

  /** CRLF and then a header block: a failure of the block is reported as
      `parse_error`, and the fields read before it stay. */
  lemma StatusLineEndAt(s: string, i: nat, block: string, h: ResponseHead)
    requires i <= |s| && s[i..] == "\r" + ("\n" + block)
    ensures StatusLineEndSpec(s, i, h) == FieldsThen(block, h)
  {
    assert s[i] == s[i..][0] && s[i + 1] == s[i..][1];
    SuffixStep(s, i, "\r", "\n" + block);
    SuffixStep(s, i + 1, "\n", block);
  }

  // ---------------------------------------------------------------
  // Round trips.

  /** The header block `encode_to_data` writes parses back into an empty
      map as the map it came from. */
  lemma EncodedBlock(hs: HeaderMap)
    requires Sorted(hs) && AllWellFormed(hs)
    ensures ParseHeadersSpec(Encode(hs) + "\r\n", []) == (ReadOneHeader, |Encode(hs)| + 2, hs)
  {
    ParseEncodedMap(hs, "");
    assert Encode(hs) + "\r\n" + "" == Encode(hs) + "\r\n";
  }

  lemma DigitsAreToken(w: string)
    requires AllDigits(w)
    ensures NoSpCr(w) && NoCr(w)
  {
    forall k | 0 <= k < |w| ensures w[k] != ' ' && w[k] != '\r' {
      assert IsDigit(w[k]);
    }
  }

  /** A head the status-line parser reads back as written. */
  ghost predicate Readable(h: ResponseHead)
  {
    h.version != VInvalid && h.status < UINT16_MAX && NoCr(h.description)
    && Sorted(h.headers) && AllWellFormed(h.headers)
  }

  /** What follows a status line: the header block, whose failure is
      reported as `parse_error`. */
  function FieldsThen(block: string, h: ResponseHead): (ParserResult, ResponseHead)
  {
    var (res, n, hs) := ParseHeadersSpec(block, h.headers);
    (if res == ReadOneHeader then ReadOneHeader else ParseError, h.(headers := hs))
  }

  /** What the status code decides: a code the parser cannot hold fails,
      otherwise it is stored, with the description if there is one, and
      the header block follows. */
  function CodeThen(code: string, desc: Option<string>, block: string, h: ResponseHead): (ParserResult, ResponseHead)
  {
    match ShortValue(code)
    case None => (BufferOverflow, h)
    case Some(c) =>
      var h1 := h.(status := c);
      FieldsThen(block, if desc.Some? then h1.(description := desc.value) else h1)
  }

  /** What a status line decides: the version, then the status code, then
      the header block. */
  function LineThen(vt: string, code: string, desc: Option<string>, block: string, h: ResponseHead): (ParserResult, ResponseHead)
  {
    match VersionOf(vt)
    case None => (InvalidVersion, h)
    case Some(ver) => CodeThen(code, desc, block, h.(version := ver))
  }

  lemma DescribedStatusAt(s: string, t: nat, code: string, d: string, block: string, h: ResponseHead)
    requires t <= |s| && s[t..] == code + (" " + (d + ("\r" + ("\n" + block))))
    requires code != [] && NoSpCr(code) && NoCr(d)
    ensures StatusSpec(s, t, h) == CodeThen(code, Some(d), block, h)
  {
    match ShortValue(code)
    case None =>
      StatusOutOfRange(s, t, code, " " + (d + ("\r" + ("\n" + block))), h);
    case Some(c) =>
      var p := t + |code| + 1 + |d|;
      var h2 := h.(status := c, description := d);
      StatusWithDescription(s, t, p, code, c, d, "\n" + block, h);
      StatusLineEndAt(s, p, block, h2);
      CodeThenSome(code, c, d, block, h);
  }

  lemma CodeThenSome(code: string, c: nat, desc: string, block: string, h: ResponseHead)
    requires ShortValue(code) == Some(c)
    ensures c < 0x10000
    ensures CodeThen(code, Some(desc), block, h) == FieldsThen(block, h.(status := c, description := desc))
  {
  }

  lemma CodeThenBare(code: string, c: nat, block: string, h: ResponseHead)
    requires ShortValue(code) == Some(c)
    ensures c < 0x10000
    ensures CodeThen(code, None, block, h) == FieldsThen(block, h.(status := c))
  {
  }

  lemma BareStatusAt(s: string, t: nat, code: string, block: string, h: ResponseHead)
    requires t <= |s| && s[t..] == code + ("\r" + ("\n" + block))
    requires code != [] && NoSpCr(code)
    ensures StatusSpec(s, t, h) == CodeThen(code, None, block, h)
  {
    match ShortValue(code)
    case None =>
      StatusOutOfRange(s, t, code, "\r" + ("\n" + block), h);
    case Some(c) =>
      StatusWithoutDescription(s, t, code, c, "\n" + block, h);
      BareLineEnd(s, t, code, block, h.(status := c));
      CodeThenBare(code, c, block, h);
  }

  lemma BareLineEnd(s: string, t: nat, code: string, block: string, h: ResponseHead)
    requires t <= |s| && s[t..] == code + ("\r" + ("\n" + block)) && code != [] && NoSpCr(code)
    ensures t + |code| < |s| && StatusLineEndSpec(s, t + |code|, h) == FieldsThen(block, h)
  {
    CodeOnlyFacts(s, t, code, "\n" + block);
    StatusLineEndAt(s, t + |code|, block, h);
  }

  /** A status line with a description, split at its spaces and CRLF. */
  lemma DescribedLineSplit(vt: string, code: string, d: string, block: string, h: ResponseHead)
    requires vt != [] && NoSpCr(vt) && code != [] && NoSpCr(code) && NoCr(d)
    ensures ResponseHeaderSpec("HTTP/" + vt + " " + code + " " + d + "\r\n" + block, h)
         == LineThen(vt, code, Some(d), block, h)
  {
    var rest := code + (" " + (d + ("\r" + ("\n" + block))));
    var s := "HTTP/" + vt + " " + code + " " + d + "\r\n" + block;
    assert s == "HTTP/" + vt + " " + rest;
    ResponseVersionAt(vt, rest, h);
    assert s[|vt| + 6..] == rest;
    if VersionOf(vt).Some? {
      var h1 := h.(version := VersionOf(vt).value);
      DescribedStatusAt(s, |vt| + 6, code, d, block, h1);
    }
  }

  /** A status line whose code is followed directly by CRLF. */
  lemma BareLineSplit(vt: string, code: string, block: string, h: ResponseHead)
    requires vt != [] && NoSpCr(vt) && code != [] && NoSpCr(code)
    ensures ResponseHeaderSpec("HTTP/" + vt + " " + code + "\r\n" + block, h)
         == LineThen(vt, code, None, block, h)
  {
    var rest := code + ("\r" + ("\n" + block));
    var s := "HTTP/" + vt + " " + code + "\r\n" + block;
    assert s == "HTTP/" + vt + " " + rest;
    ResponseVersionAt(vt, rest, h);
    assert s[|vt| + 6..] == rest;
    if VersionOf(vt).Some? {
      var h1 := h.(version := VersionOf(vt).value);
      BareStatusAt(s, |vt| + 6, code, block, h1);
    }
  }

  /** `encode_to_data` as the pieces the status-line parser splits. */
  lemma ResponseShape(h: ResponseHead)
    ensures h.description == [] ==>
      EncodeResponse(h) == "HTTP/" + VersionText(h.version) + " " + NatToString(h.status) + "\r\n" + (Encode(h.headers) + "\r\n")
    ensures h.description != [] ==>
      EncodeResponse(h) == "HTTP/" + VersionText(h.version) + " " + NatToString(h.status) + " " + h.description + "\r\n" + (Encode(h.headers) + "\r\n")
  {
  }

  /** The header block of an encoded map, read into an empty map. */
  lemma FieldsThenEncoded(hs: HeaderMap, h: ResponseHead)
    requires Sorted(hs) && AllWellFormed(hs) && h.headers == []
    ensures FieldsThen(Encode(hs) + "\r\n", h) == (ReadOneHeader, h.(headers := hs))
  {
    EncodedBlock(hs);
  }

  /** `parse_response_header` inverts `encode_to_data`: parsing the bytes
      into a head with no fields yet gives back version, status and the
      header map. An empty description is not written, so the one the
      target already held stays. */
  lemma ResponseRoundTrip(h: ResponseHead, into: ResponseHead)
    requires Readable(h) && into.headers == []
    ensures ResponseHeaderSpec(EncodeResponse(h), into)
         == (ReadOneHeader, h.(description := if h.description == [] then into.description else h.description))
  {
    var vt := VersionText(h.version);
    var code := NatToString(h.status);
    var block := Encode(h.headers) + "\r\n";
    ShortValueOfNat(h.status);
    DigitsAreToken(code);
    assert NoSpCr(vt);
    ResponseShape(h);
    var h1 := into.(version := h.version, status := h.status);
    if h.description == [] {
      BareLineSplit(vt, code, block, into);
      FieldsThenEncoded(h.headers, h1);
    } else {
      DescribedLineSplit(vt, code, h.description, block, into);
      FieldsThenEncoded(h.headers, h1.(description := h.description));
    }
  }

  // ---------------------------------------------------------------
  // Requests.

  lemma FieldsStops(block: string, h: RequestHead, n: nat, hs: HeaderMap)
    requires ParseHeadersSpec(block, h.headers) == (ReadOneHeader, n, hs)
    ensures RequestFieldsSpec(block, h) == HostThen(h.(headers := hs))
  {
    var r := ParseHeadersSpec(block, h.headers);
    assert r.0 == ReadOneHeader && r.2 == hs;
    assert Ordinal(r.0) < Ordinal(ParseError);
  }

  /** An encoded header map read into a request with no fields yet. */
  lemma RequestFieldsEncoded(hs: HeaderMap, h: RequestHead)
    requires Sorted(hs) && AllWellFormed(hs) && h.headers == []
    ensures RequestFieldsSpec(Encode(hs) + "\r\n", h) == HostThen(h.(headers := hs))
  {
    EncodedBlock(hs);
    FieldsStops(Encode(hs) + "\r\n", h, |Encode(hs)| + 2, hs);
  }

  lemma NoSpCrJoin(a: string, b: string)
    requires NoSpCr(a) && NoSpCr(b)
    ensures NoSpCr(a + b)
  {
    forall k | 0 <= k < |a + b| ensures (a + b)[k] != ' ' && (a + b)[k] != '\r' {
      if k < |a| {
        assert (a + b)[k] == a[k];
      } else {
        assert (a + b)[k] == b[k - |a|];
      }
    }
  }

  /** `encode_to_data` of a request as the pieces the request-line parser
      splits. */
  lemma RequestShape(h: RequestHead)
    ensures EncodeRequest(h) == h.methodName + " " + EncodeTarget(h) + " HTTP/" + VersionText(h.version)
      + "\r\n" + (Encode(h.headers) + "\r\n")
  {
  }

  /** The request line of an encoded request, with a target that
      dissects successfully into `d`. */
  lemma EncodedRequestLine(h: RequestHead, into: RequestHead, d: RequestHead)
    requires h.methodName != [] && NoSpCr(h.methodName) && NoSpCr(EncodeTarget(h))
    requires h.version != VInvalid && Sorted(h.headers) && AllWellFormed(h.headers)
    requires DissectTarget(EncodeTarget(h), into.(methodName := h.methodName)) == (ReadOneHeader, d)
    requires d.headers == []
    ensures RequestHeaderSpec(EncodeRequest(h), into) == HostThen(d.(version := h.version, headers := h.headers))
  {
    var vt := VersionText(h.version);
    assert NoCr(vt);
    RequestShape(h);
    RequestLineSplit(h.methodName, EncodeTarget(h), vt, Encode(h.headers) + "\r\n", into);
    RequestFieldsEncoded(h.headers, d.(version := h.version));
  }

  /** A CONNECT request reads back as written: method, host, port,
      version and header map; scheme and path are not part of its
      request line and stay as they were. */
  lemma ConnectRoundTrip(h: RequestHead, into: RequestHead)
    requires h.methodName == "CONNECT" && PlainHostName(h.host) && NoSpCr(h.host) && h.port < UINT16_MAX
    requires h.version != VInvalid && Sorted(h.headers) && AllWellFormed(h.headers)
    requires Find(h.headers, "Host").None? && into.headers == []
    ensures RequestHeaderSpec(EncodeRequest(h), into)
         == (ReadOneHeader, h.(scheme := into.scheme, pathAndQuery := into.pathAndQuery))
  {
    var into1 := into.(methodName := h.methodName);
    ConnectTargetOf(h, into1);
    EncodedRequestLine(h, into, into1.(host := h.host, port := h.port));
  }

  lemma ConnectTargetOf(h: RequestHead, into: RequestHead)
    requires h.methodName == "CONNECT" && PlainHostName(h.host) && NoSpCr(h.host) && h.port < UINT16_MAX
    requires into.methodName == "CONNECT"
    ensures h.methodName != [] && NoSpCr(h.methodName) && NoSpCr(EncodeTarget(h))
    ensures DissectTarget(EncodeTarget(h), into) == (ReadOneHeader, into.(host := h.host, port := h.port))
  {
    assert NoSpCr(h.methodName) by {
      forall k | 0 <= k < |h.methodName| ensures h.methodName[k] != ' ' && h.methodName[k] != '\r' {
        assert h.methodName[k] in "CONNECT";
      }
    }
    var digits := NatToString(h.port);
    DigitsAreToken(digits);
    NoSpCrJoin(h.host, ":");
    NoSpCrJoin(h.host + ":", digits);
    assert EncodeTarget(h) == h.host + ":" + digits;
    ConnectTarget(h.host, h.port, into);
  }

  /** The optional port the request encoder writes: none for 80 and 0. */
  function WrittenPort(h: RequestHead): Option<nat>
  {
    if h.port != 80 && h.port != 0 then Some(h.port) else None
  }

  /** A request in absolute form reads back as written. A port of 80 or 0
      is not written, so the one the target already held stays. */
  lemma AbsoluteRoundTrip(h: RequestHead, into: RequestHead)
    requires h.methodName != "CONNECT" && h.methodName != [] && NoSpCr(h.methodName)
    requires PlainScheme(h.scheme) && NoSpCr(h.scheme) && PlainHostName(h.host) && NoSpCr(h.host)
    requires PathShape(h.pathAndQuery) && NoSpCr(h.pathAndQuery) && h.port < UINT16_MAX
    requires h.version != VInvalid && Sorted(h.headers) && AllWellFormed(h.headers)
    requires Find(h.headers, "Host").None? && into.headers == []
    ensures RequestHeaderSpec(EncodeRequest(h), into)
         == (ReadOneHeader, if WrittenPort(h).None? then h.(port := into.port) else h)
  {
    var pp := WrittenPort(h);
    var into1 := into.(methodName := h.methodName);
    assert EncodeTarget(h) == h.scheme + "://" + h.host + PortPart(pp) + h.pathAndQuery;
    assert NoSpCr(PortPart(pp)) by {
      if pp.Some? {
        DigitsAreToken(NatToString(h.port));
        NoSpCrJoin(":", NatToString(h.port));
      }
    }
    NoSpCrJoin(h.scheme, "://");
    NoSpCrJoin(h.scheme + "://", h.host);
    NoSpCrJoin(h.scheme + "://" + h.host, PortPart(pp));
    NoSpCrJoin(h.scheme + "://" + h.host + PortPart(pp), h.pathAndQuery);
    ParseUriAbsolute(h.scheme, h.host, pp, h.pathAndQuery, into1);
    AbsoluteSplit(h.scheme, h.host, pp, h.pathAndQuery);
    var d := into1.(scheme := h.scheme, host := h.host, pathAndQuery := h.pathAndQuery,
                    port := if pp.Some? then h.port else into.port);
    assert DissectTarget(EncodeTarget(h), into1) == (ReadOneHeader, d);
    EncodedRequestLine(h, into, d);
  }

  /** An origin-form request (not CONNECT, no `://` in the target) whose
      `Host` header reads `host:port`: the target is kept whole as the
      path with scheme `http`, and host and port are then taken from the
      `Host` header. A port of 65535 or more is `invalid_uri`, with the
      host already written and the port left at 80. */
  lemma OriginFormWithHost(m: string, t: string, vt: string, hs: HeaderMap, host: string, port: nat, into: RequestHead)
    requires m != "CONNECT" && m != [] && NoSpCr(m) && t != [] && NoSpCr(t) && IndexOf(t, "://", 0).None?
    requires vt != [] && NoCr(vt) && VersionOf(vt).Some?
    requires Sorted(hs) && AllWellFormed(hs) && into.headers == []
    requires PlainHostName(host) && Find(hs, "Host") == Some(host + ":" + NatToString(port))
    ensures var h := into.(methodName := m, scheme := "http", pathAndQuery := t, port := 80,
                           version := VersionOf(vt).value, headers := hs, host := host);
      RequestHeaderSpec(m + " " + t + " HTTP/" + vt + "\r\n" + (Encode(hs) + "\r\n"), into)
      == if port < UINT16_MAX then (ReadOneHeader, h.(port := port)) else (InvalidUri, h)
  {
    var block := Encode(hs) + "\r\n";
    RequestLineSplit(m, t, vt, block, into);
    var hm := into.(methodName := m);
    OriginFormTarget(t, hm);
    var d := hm.(scheme := "http", pathAndQuery := t, port := 80);
    var hv := d.(version := VersionOf(vt).value);
    RequestFieldsEncoded(hs, hv);
    var h2 := hv.(headers := hs);
    ParseUriHostPort(host, port, h2);
  }
}
