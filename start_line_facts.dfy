/** What the start-line parsers do on well-shaped input: the request line
    splits into method, target and version; the status line into version,
    code and description; the target dissections; the `Host`
    re-dissection; and the round trips through `encode_to_data`. */
module StartLineFacts {
  import opened Text
  import opened HttpConst
  import opened Headers
  import opened HeaderParser
  import opened Uri
  import opened Heads
  import opened StartLine

  // ---------------------------------------------------------------
  // Where the cursor loops stop.

  lemma TokenEndSuffix(s: string, i: nat, w: string, rest: string)
    requires i <= |s| && s[i..] == w + rest && NoSpCr(w)
    requires rest != [] && (rest[0] == ' ' || rest[0] == '\r')
    ensures TokenEnd(s, i) == i + |w| && s[i..i + |w|] == w && s[i + |w|] == rest[0]
  {
    forall k | i <= k < i + |w| ensures s[k] != ' ' && s[k] != '\r' {
      assert s[k] == s[i..][k - i] == w[k - i];
    }
    assert s[i + |w|] == s[i..][|w|] == rest[0];
    assert s[i..i + |w|] == s[i..][..|w|];
  }

  lemma LineEndSuffix(s: string, i: nat, w: string, rest: string)
    requires i <= |s| && s[i..] == w + rest && NoCr(w)
    requires rest != [] && rest[0] == '\r'
    ensures LineEnd(s, i) == i + |w| && s[i..i + |w|] == w
  {
    forall k | i <= k < i + |w| ensures s[k] != '\r' {
      assert s[k] == s[i..][k - i] == w[k - i];
    }
    assert s[i + |w|] == s[i..][|w|] == rest[0];
    assert s[i..i + |w|] == s[i..][..|w|];
  }

  /** Dropping a prefix of a suffix. */
  lemma SuffixStep(s: string, i: nat, a: string, b: string)
    requires i <= |s| && s[i..] == a + b
    ensures i + |a| <= |s| && s[i + |a|..] == b
  {
    assert s[i + |a|..] == s[i..][|a|..];
  }

  // ---------------------------------------------------------------
  // The request line, piece by piece.

  lemma MethodStops(s: string, u: nat, m: string, h: RequestHead)
    requires 0 < u < |s| && TokenEnd(s, 0) == u && s[u] == ' ' && s[..u] == m
    ensures RequestHeaderSpec(s, h) == RequestTargetSpec(s, u + 1, h.(methodName := m))
  {
  }

  /** The method is the text before the first SP. */
  lemma RequestMethodAt(s: string, m: string, rest: string, h: RequestHead)
    requires s == m + (" " + rest) && m != [] && NoSpCr(m)
    ensures |m| < |s| && s[|m| + 1..] == rest
    ensures RequestHeaderSpec(s, h) == RequestTargetSpec(s, |m| + 1, h.(methodName := m))
  {
    var r := " " + rest;
    assert s[0..] == m + r;
    TokenEndSuffix(s, 0, m, r);
    assert s[..|m|] == s[0..|m|];
    SuffixStep(s, 0, m, r);
    SuffixStep(s, |m|, " ", rest);
    MethodStops(s, |m|, m, h);
  }

  lemma TargetStops(s: string, i: nat, u: nat, t: string, h: RequestHead)
    requires i < u < |s| && TokenEnd(s, i) == u && s[u] == ' ' && s[i..u] == t
    ensures RequestTargetSpec(s, i, h) == TargetThen(s, u, DissectTarget(t, h))
  {
  }

  /** The target runs to the next SP and is dissected; the version part
      is read only if the dissection succeeded. */
  lemma RequestTargetAt(s: string, i: nat, t: string, rest: string, h: RequestHead)
    requires i <= |s| && s[i..] == t + (" " + rest)
    requires t != [] && NoSpCr(t)
    ensures i + |t| < |s| && s[i + |t| + 1..] == rest
    ensures RequestTargetSpec(s, i, h) == TargetThen(s, i + |t|, DissectTarget(t, h))
  {
    var r := " " + rest;
    TokenEndSuffix(s, i, t, r);
    SuffixStep(s, i, t, r);
    SuffixStep(s, i + |t|, " ", rest);
    TargetStops(s, i, i + |t|, t, h);
  }

  lemma VersionStops(s: string, i: nat, e: nat, vt: string, block: string, h: RequestHead)
    requires i + 6 <= e && e + 1 < |s| && LineEnd(s, i) == e
    requires s[i..i + 5] == "HTTP/" && s[i + 5..e] == vt
    requires s[e + 1] == '\n' && s[e + 2..] == block
    ensures RequestVersionSpec(s, i, h) ==
      match VersionOf(vt)
      case None => (InvalidVersion, h)
      case Some(v) => RequestFieldsSpec(block, h.(version := v))
  {
    assert VersionOf(s[i + 5..e]) == VersionOf(vt);
    match VersionOf(vt)
    case None =>
    case Some(v) =>
      var h1 := h.(version := v);
      assert RequestVersionSpec(s, i, h) == RequestFieldsSpec(s[e + 2..], h1);
  }

  /** Where `HTTP/` + version + CRLF puts the line end. */
  lemma VersionFacts(s: string, i: nat, vt: string, block: string)
    requires i <= |s| && s[i..] == "HTTP/" + vt + "\r\n" + block
    requires vt != [] && NoCr(vt)
    ensures i + |vt| + 5 + 1 < |s| && LineEnd(s, i) == i + |vt| + 5
    ensures s[i..i + 5] == "HTTP/" && s[i + 5..i + |vt| + 5] == vt
    ensures s[i + |vt| + 5 + 1] == '\n' && s[i + |vt| + 5 + 2..] == block
  {
    var w := "HTTP/" + vt;
    var r := "\r\n" + block;
    assert s[i..] == w + r;
    LineEndSuffix(s, i, w, r);
    var e := i + |w|;
    assert s[i..i + 5] == w[..5] == "HTTP/";
    assert s[i + 5..e] == w[5..] == vt;
    SuffixStep(s, i, w, r);
    assert s[e + 1] == r[1];
    SuffixStep(s, e, "\r\n", block);
  }

  /** `HTTP/`, the version digits to the CR, then LF: only "1.0" and "1.1"
      are accepted; anything else is `invalid_version`. */
  lemma RequestVersionAt(s: string, i: nat, vt: string, block: string, h: RequestHead)
    requires i <= |s| && s[i..] == "HTTP/" + vt + "\r\n" + block
    requires vt != [] && NoCr(vt)
    ensures RequestVersionSpec(s, i, h) ==
      match VersionOf(vt)
      case None => (InvalidVersion, h)
      case Some(v) => RequestFieldsSpec(block, h.(version := v))
  {
    VersionFacts(s, i, vt, block);
    VersionStops(s, i, i + |vt| + 5, vt, block, h);
  }

  /** What follows a successful target on a request line: the version
      check, then the header block. */
  function VersionThen(vt: string, block: string, d: (ParserResult, RequestHead)): (ParserResult, RequestHead)
  {
    if d.0 != ReadOneHeader then d
    else match VersionOf(vt)
      case None => (InvalidVersion, d.1)
      case Some(v) => RequestFieldsSpec(block, d.1.(version := v))
  }

  lemma VersionAfterTarget(s: string, u: nat, vt: string, block: string, d: (ParserResult, RequestHead))
    requires u < |s| && s[u + 1..] == "HTTP/" + vt + "\r\n" + block && vt != [] && NoCr(vt)
    ensures TargetThen(s, u, d) == VersionThen(vt, block, d)
  {
    if d.0 == ReadOneHeader {
      RequestVersionAt(s, u + 1, vt, block, d.1);
    }
  }

  /** The request line as a whole: method, target and version separated by
      single spaces and ended by CRLF. The target is dissected, and on
      success the version decides between `invalid_version` and reading
      the header block. */
  lemma RequestLineSplit(m: string, t: string, vt: string, block: string, h: RequestHead)
    requires m != [] && NoSpCr(m) && t != [] && NoSpCr(t) && vt != [] && NoCr(vt)
    ensures RequestHeaderSpec(m + " " + t + " HTTP/" + vt + "\r\n" + block, h)
         == VersionThen(vt, block, DissectTarget(t, h.(methodName := m)))
  {
    var rest2 := "HTTP/" + vt + "\r\n" + block;
    var rest1 := t + (" " + rest2);
    var s := m + " " + t + " HTTP/" + vt + "\r\n" + block;
    assert s == m + (" " + rest1);
    RequestMethodAt(s, m, rest1, h);
    var hm := h.(methodName := m);
    var d := DissectTarget(t, hm);
    RequestTargetAt(s, |m| + 1, t, rest2, hm);
    VersionAfterTarget(s, |m| + 1 + |t|, vt, block, d);
  }

  // ---------------------------------------------------------------
  // Target dissection.

  /** An origin-form target (no `://`, method not CONNECT) is kept whole
      as the path, with scheme `http` and port 80; the host is not set. */
  lemma OriginFormTarget(t: string, h: RequestHead)
    requires h.methodName != "CONNECT" && IndexOf(t, "://", 0).None?
    ensures DissectTarget(t, h) == (ReadOneHeader, h.(scheme := "http", pathAndQuery := t, port := 80))
  {
  }

  predicate PlainHostName(host: string)
  {
    host != [] && Dots(host) && forall i :: 0 <= i < |host| ==> host[i] != ':' && host[i] != '/'
  }

  /** A CONNECT target `host:port`: host and port are taken when the port
      is below 65535; otherwise the host is written and the request line
      fails with `buffer_overflow`. */
  lemma ConnectTarget(host: string, port: nat, h: RequestHead)
    requires h.methodName == "CONNECT" && PlainHostName(host)
    ensures DissectTarget(host + ":" + NatToString(port), h) ==
      if port < UINT16_MAX then (ReadOneHeader, h.(host := host, port := port))
      else (BufferOverflow, h.(host := host))
  {
    HostColonPort(PortOnly, host, port);
    ShortValueOfNat(port);
  }

  /** A text with exactly one colon, followed by digits, has no `://`. */
  lemma NoSchemeSeparator(host: string, digits: string)
    requires forall i :: 0 <= i < |host| ==> host[i] != ':'
    requires digits == [] || IsDigit(digits[0])
    requires forall i :: 0 <= i < |digits| ==> digits[i] != ':'
    ensures IndexOf(host + ":" + digits, "://", 0).None?
  {
    var u := host + ":" + digits;
    assert u == host + ([':'] + digits);
    forall k: nat ensures !MatchAt(u, "://", k) {
      if k + 3 <= |u| {
        assert u[k..k + 3][0] == u[k] && u[k..k + 3][1] == u[k + 1];
        if k < |host| {
          assert u[k] == host[k];
        } else if k > |host| {
          assert u[k] == digits[k - |host| - 1];
        } else {
          assert u[k + 1] == digits[0];
        }
      }
    }
  }

  lemma NoSchemeSeparatorInHost(host: string)
    requires forall i :: 0 <= i < |host| ==> host[i] != ':'
    ensures IndexOf(host, "://", 0).None?
  {
    forall k: nat ensures !MatchAt(host, "://", k) {
      if k + 3 <= |host| {
        assert host[k..k + 3][0] == host[k];
      }
    }
  }

  /** A `Host` value that is a bare host name replaces the host only:
      port and path are left as they were. */
  lemma ParseUriPlainHost(host: string, h: RequestHead)
    requires PlainHostName(host)
    ensures ParseUri(host, h) == (true, h.(host := host))
  {
    NoSchemeSeparatorInHost(host);
    PlainHost(host);
  }

  /** A `Host` value `host:port` replaces host and port; a port of 65535
      or more is refused with the host already replaced. */
  lemma ParseUriHostPort(host: string, port: nat, h: RequestHead)
    requires PlainHostName(host)
    ensures ParseUri(host + ":" + NatToString(port), h) ==
      if port < UINT16_MAX then (true, h.(host := host, port := port))
      else (false, h.(host := host))
  {
    var d := NatToString(port);
    forall i | 0 <= i < |d| ensures d[i] != ':' {
      assert IsDigit(d[i]);
    }
    NoSchemeSeparator(host, d);
    HostColonPort(OptPortOptPath, host, port);
    ShortValueOfNat(port);
  }

  /** The host pattern never matches the empty text, so an empty `Host`
      value is refused. */
  lemma ParseUriEmpty(h: RequestHead)
    ensures ParseUri("", h) == (false, h)
  {
    OptionalFormFails("");
  }

  /** The `parse_uri` quirk: a text with `://` that the absolute pattern
      does not match at all is reported as success, and nothing is
      written. */
  lemma AbsoluteMismatchReportsSuccess(uri: string, h: RequestHead)
    requires IndexOf(uri, "://", 0).Some?
    requires forall s, host, g :: !AbsoluteForm(uri, s, host, g)
    ensures ParseUri(uri, h) == (true, h)
  {
    SplitAbsoluteIsFirstMatch(uri);
  }

  /** An instance of the quirk: `://x` has no non-empty scheme. */
  lemma SchemeMissingReportsSuccess(h: RequestHead)
    ensures ParseUri("://x", h) == (true, h)
  {
    var u := "://x";
    assert MatchAt(u, "://", 0);
    assert forall s, host, g :: !AbsoluteForm(u, s, host, g);
    AbsoluteMismatchReportsSuccess(u, h);
  }

  /** The optional port of an absolute URI, as the encoder writes it. */
  function PortPart(port: Option<nat>): string
  {
    if port.Some? then ":" + NatToString(port.value) else ""
  }

  predicate PlainScheme(scheme: string)
  {
    scheme != [] && Dots(scheme) && forall i :: 0 <= i < |scheme| ==> scheme[i] != ':'
  }

  predicate PathShape(path: string)
  {
    path != [] && path[0] == '/' && Dots(path)
  }

  /** The digits group the encoder's optional port produces. */
  function PortGroup(port: Option<nat>): Option<string>
  {
    if port.Some? then Some(NatToString(port.value)) else None
  }

  /** The absolute pattern splits `scheme://host[:port]/path` into exactly
      those parts. */
  lemma AbsoluteSplit(scheme: string, host: string, port: Option<nat>, path: string)
    requires PlainScheme(scheme) && PlainHostName(host) && PathShape(path)
    ensures SplitAbsolute(scheme + "://" + host + PortPart(port) + path)
         == Some(Dissected(scheme, host, PortGroup(port), Some(path)))
    ensures IndexOf(scheme + "://" + host + PortPart(port) + path, "://", 0).Some?
  {
    var u := scheme + "://" + host + PortPart(port) + path;
    var g := Groups(PortGroup(port), Some(path));
    var rest := host + PortPart(port) + path;
    assert PortText(g.port) == PortPart(port);
    assert u == (scheme + "://") + rest;
    assert u[..|scheme| + 3] == scheme + "://";
    assert u[|scheme| + 3..] == rest;
    assert rest == host + PortText(g.port) + PathText(g.path);
    assert TailMatches(PortThenPath, PortText(g.port) + PathText(g.path), g);
    SplitAbsoluteAtFirstSeparators(u, scheme, host, g);
    assert MatchAt(u, "://", |scheme|) by {
      assert u[|scheme|..|scheme| + 3] == u[..|scheme| + 3][|scheme|..];
    }
  }

  /** An absolute URI `scheme://host[:port]/path`: scheme and host are
      written; a present port below 65535 is written, a larger one fails;
      then the path is written. */
  lemma ParseUriAbsolute(scheme: string, host: string, port: Option<nat>, path: string, h: RequestHead)
    requires PlainScheme(scheme) && PlainHostName(host) && PathShape(path)
    ensures ParseUri(scheme + "://" + host + PortPart(port) + path, h) ==
      var h1 := h.(scheme := scheme, host := host);
      if port.Some? && port.value >= UINT16_MAX then (false, h1)
      else if port.Some? then (true, h1.(port := port.value, pathAndQuery := path))
      else (true, h1.(pathAndQuery := path))
  {
    if port.Some? {
      ShortValueOfNat(port.value);
    }
    AbsoluteSplit(scheme, host, port, path);
  }
}
