/** The two pure parts of `http_client`: `req_to_str`, which renders a
    request for the wire, and `parse_uri`, which splits an absolute URL
    into host, port and resource path. */
module Client {
  import opened Text

  /** `header` and `request` of the client: the request names its method,
      target, version, headers in order, and body. */
  datatype Header = Header(name: string, value: string)
  datatype Request = Request(
    methodName: string, uri: string, versionMajor: int, versionMinor: int,
    headers: seq<Header>, body: string)

  const CRLF: string := "\r\n"

  // ---------------------------------------------------------------
  // `req_to_str`

  function RequestLine(req: Request): string
  {
    req.methodName + " " + req.uri + " HTTP/" + IntToString(req.versionMajor) + "."
      + IntToString(req.versionMinor) + CRLF
  }

  function FixedHeaders(serverUrl: string): string
  {
    "Host: " + serverUrl + CRLF + "Accept: */*" + CRLF
  }

  function HeaderLine(h: Header): string
  {
    h.name + ": " + h.value + CRLF
  }

  /** The user headers, one line each, in vector order. */
  function HeaderLines(hs: seq<Header>): string
  {
    if hs == [] then "" else HeaderLine(hs[0]) + HeaderLines(hs[1..])
  }

  /** The request line, `Host`, `Accept` and the user headers. */
  function Opening(req: Request, serverUrl: string): string
  {
    RequestLine(req) + FixedHeaders(serverUrl) + HeaderLines(req.headers)
  }

  /** Everything before the decimal body size: the opening lines,
      `Connection: close` and the name of the length line. */
  function Lead(req: Request, serverUrl: string): string
  {
    Opening(req, serverUrl) + "Connection: close" + CRLF + "Content-Length: "
  }

  /** `req_to_str`: the text written to the request stream, with the body
      size in decimal and a blank line before the body. The server port is
      not written. */
  function ReqToStr(req: Request, serverUrl: string, serverPort: string): (r: string)
    ensures |r| >= |req.body| && r[|r| - |req.body|..] == req.body
  {
    Lead(req, serverUrl) + NatToString(|req.body|) + "\r\n\r\n" + req.body
  }

  lemma {:induction false} HeaderLinesAppend(a: seq<Header>, b: seq<Header>)
    ensures HeaderLines(a + b) == HeaderLines(a) + HeaderLines(b)
  {
    if a == [] {
      assert a + b == b;
    } else {
      assert (a + b)[1..] == a[1..] + b;
      HeaderLinesAppend(a[1..], b);
    }
  }

  /** The user headers keep their order: header `i` is written after the
      ones before it and before the ones after it. */
  lemma {:induction false} UserHeadersInOrder(hs: seq<Header>, i: nat)
    requires i < |hs|
    ensures HeaderLines(hs) == HeaderLines(hs[..i]) + HeaderLine(hs[i]) + HeaderLines(hs[i + 1..])
  {
    if i == 0 {
      assert hs[..0] == [];
    } else {
      var tail := hs[1..];
      UserHeadersInOrder(tail, i - 1);
      assert tail[..i - 1] == hs[..i][1..];
      assert tail[i - 1] == hs[i] && tail[i..] == hs[i + 1..];
      var x := HeaderLine(hs[0]);
      var front := HeaderLines(tail[..i - 1]);
      var y := HeaderLine(hs[i]);
      var rest := HeaderLines(hs[i + 1..]);
      Regroup(x, front, y, rest);
    }
  }

  lemma Regroup(x: string, front: string, y: string, rest: string)
    ensures x + (front + y + rest) == (x + front) + y + rest
  {
  }

  /** The text opens with the request line, then `Host` and `Accept`,
      then the user headers. */
  lemma OpeningFirst(req: Request, serverUrl: string, serverPort: string)
    ensures StartsWith(ReqToStr(req, serverUrl, serverPort), Opening(req, serverUrl))
  {
    PrefixOfSum(Opening(req, serverUrl), "Connection: close", CRLF, "Content-Length: ",
                NatToString(|req.body|), "\r\n\r\n", req.body);
  }

  lemma PrefixOfSum(x: string, a: string, b: string, c: string, d: string, e: string, f: string)
    ensures StartsWith(x + a + b + c + d + e + f, x)
  {
    var s := x + a + b + c + d + e + f;
    assert s == x + (a + b + c + d + e + f);
  }

  /** The server port plays no part in the text. */
  lemma PortNotWritten(req: Request, serverUrl: string, p1: string, p2: string)
    ensures ReqToStr(req, serverUrl, p1) == ReqToStr(req, serverUrl, p2)
  {
  }

  /** The declared length is the body's: just before the body come the
      length line and the blank line, and the decimal digits on the
      length line read back as the number of body bytes. */
  lemma DeclaredLengthIsBodySize(req: Request, serverUrl: string, serverPort: string, bound: nat)
    requires |req.body| < bound
    ensures var r := ReqToStr(req, serverUrl, serverPort);
      var digits := NatToString(|req.body|);
      var n := |r| - |req.body|;
      n >= |digits| + 4 && r[n - |digits| - 4..n] == digits + "\r\n\r\n"
      && ParseUnsigned(digits, bound) == Some(|req.body|)
  {
    TailOf(Lead(req, serverUrl), NatToString(|req.body|), "\r\n\r\n", req.body);
    ParsePrintRoundTrip(|req.body|, bound);
  }

  lemma TailOf(a: string, d: string, z: string, b: string)
    ensures var r := a + d + z + b;
      |r| - |b| >= |d| + |z| && r[|r| - |b| - |d| - |z|..|r| - |b|] == d + z
  {
    var r := a + d + z + b;
    assert r == a + (d + z) + b;
  }

  // ---------------------------------------------------------------
  // `parse_uri`

  /** The first occurrence of `c` in `s`. */
  function FindChar(s: string, c: char): (r: Option<nat>)
    ensures r.Some? ==> r.value < |s| && s[r.value] == c && c !in s[..r.value]
    ensures r.None? <==> c !in s
  {
    if s == [] then None
    else if s[0] == c then Some(0)
    else match FindChar(s[1..], c)
      case None => None
      case Some(i) =>
        assert s[..i + 1] == [s[0]] + s[1..][..i];
        Some(i + 1)
  }

  /** `s[k]` is the first `c` in `s`. */
  lemma FindCharAt(s: string, c: char, k: nat)
    requires k < |s| && s[k] == c && c !in s[..k]
    ensures FindChar(s, c) == Some(k)
  {
    assert s[k] in s;
    var r := FindChar(s, c);
    assert forall j :: 0 <= j < k ==> s[j] == s[..k][j];
    assert forall j :: 0 <= j < r.value ==> s[j] == s[..r.value][j];
  }

  /** What `parse_uri` returns and leaves in its three out-parameters. */
  datatype UriSplit = UriSplit(error: string, serverUrl: string, serverPort: string, resourcePath: string)

  const HTTP_PREFIX: string := "http://"

  /** The text after one leading `http://`, if there is one. */
  function Unprefixed(fullPath: string): string
  {
    if StartsWith(fullPath, HTTP_PREFIX) then fullPath[|HTTP_PREFIX|..] else fullPath
  }

  /** The authority before the first `/` and the resource path from it,
      `/` when there is none. */
  function SplitPath(v: string): (string, string)
  {
    match FindChar(v, '/')
    case None => (v, "/")
    case Some(i) => (v[..i], v[i..])
  }

  /** The host before the first `:` and the port after it, `80` when
      there is none. */
  function SplitAuthority(a: string): (string, string)
  {
    match FindChar(a, ':')
    case None => (a, "80")
    case Some(j) => (a[..j], a[j + 1..])
  }

  /** `parse_uri`, given the out-parameters' old values. */
  function ParseUri(fullPath: string, serverUrl: string, serverPort: string, resourcePath: string): (r: UriSplit)
  {
    if StartsWith(fullPath, "https") then
      UriSplit("https not supported", serverUrl, serverPort, resourcePath)
    else
      var (authority, path) := SplitPath(Unprefixed(fullPath));
      var (host, port) := SplitAuthority(authority);
      UriSplit("", host, port, path)
  }

  /** An input starting with `https` (any input whose first five
      characters are those) is refused and the out-parameters keep their
      values; every other input succeeds with the empty string. */
  lemma HttpsRefused(fullPath: string, serverUrl: string, serverPort: string, resourcePath: string)
    ensures var r := ParseUri(fullPath, serverUrl, serverPort, resourcePath);
      (r.error != "" <==> StartsWith(fullPath, "https"))
      && (r.error != "" ==> r == UriSplit("https not supported", serverUrl, serverPort, resourcePath))
  {
  }

  /** The path split: the authority has no `/`, the path starts with one,
      and together they are the input unless the default path was used. */
  lemma SplitPathParts(v: string)
    ensures var (a, path) := SplitPath(v);
      '/' !in a && |path| > 0 && path[0] == '/'
      && ('/' in v ==> v == a + path)
      && ('/' !in v ==> a == v && path == "/")
  {
    match FindChar(v, '/')
    case None =>
    case Some(i) =>
      assert v == v[..i] + v[i..];
  }

  /** The authority split: the host has no `:`, and host, `:` and port are
      the authority unless the default port was used; nothing in it adds a
      `/`. */
  lemma SplitAuthorityParts(a: string)
    ensures var (host, port) := SplitAuthority(a);
      ':' !in host
      && (':' in a ==> a == host + ":" + port)
      && (':' !in a ==> host == a && port == "80")
      && ('/' !in a ==> '/' !in host && '/' !in port)
  {
    match FindChar(a, ':')
    case None =>
    case Some(j) =>
      assert a == a[..j] + [a[j]] + a[j + 1..];
  }

  /** Both splits together re-assemble the text they were given. */
  lemma ViewSplits(v: string)
    ensures var (a, path) := SplitPath(v);
      var (host, port) := SplitAuthority(a);
      v == host + (if ':' in a then ":" + port else "") + (if '/' in v then path else "")
      && ':' !in host && '/' !in host && '/' !in port
      && |path| > 0 && path[0] == '/'
      && (':' !in a ==> port == "80") && ('/' !in v ==> path == "/")
  {
    var (a, path) := SplitPath(v);
    var (host, port) := SplitAuthority(a);
    SplitPathParts(v);
    SplitAuthorityParts(a);
    if ':' in a {
      if '/' in v {
        assert v == host + ":" + port + path;
      } else {
        assert v == host + ":" + port;
      }
    }
  }

  /** A successful split re-assembles the input after the `http://`
      prefix: the host up to the first `:` of the authority, the port after
      it, and the path from the first `/`. The host has no `:` or `/`, the
      port no `/`, and the path starts with `/`; the defaults are port `80`
      and path `/`. */
  lemma ParseUriSplits(fullPath: string, serverUrl: string, serverPort: string, resourcePath: string)
    requires !StartsWith(fullPath, "https")
    ensures var r := ParseUri(fullPath, serverUrl, serverPort, resourcePath);
      var v := Unprefixed(fullPath);
      var hasPort := ':' in SplitPath(v).0;
      var hasPath := '/' in v;
      r.error == ""
      && v == r.serverUrl + (if hasPort then ":" + r.serverPort else "") + (if hasPath then r.resourcePath else "")
      && ':' !in r.serverUrl && '/' !in r.serverUrl && '/' !in r.serverPort
      && |r.resourcePath| > 0 && r.resourcePath[0] == '/'
      && (!hasPort ==> r.serverPort == "80") && (!hasPath ==> r.resourcePath == "/")
  {
    ViewSplits(Unprefixed(fullPath));
  }

  lemma UnprefixedOf(rest: string)
    ensures Unprefixed(HTTP_PREFIX + rest) == rest
    ensures !StartsWith(HTTP_PREFIX + rest, "https")
  {
    var p := HTTP_PREFIX + rest;
    assert p[..|HTTP_PREFIX|] == HTTP_PREFIX;
    assert p[4] == ':';
  }

  lemma SplitPathOf(a: string, path: string)
    requires '/' !in a && |path| > 0 && path[0] == '/'
    ensures SplitPath(a + path) == (a, path)
  {
    var v := a + path;
    assert v[..|a|] == a;
    FindCharAt(v, '/', |a|);
  }

  lemma SplitAuthorityOf(host: string, port: string)
    requires ':' !in host
    ensures SplitAuthority(host + ":" + port) == (host, port)
  {
    var a := host + ":" + port;
    assert a[..|host|] == host;
    FindCharAt(a, ':', |host|);
  }

  /** The inverse direction: a URL composed from a host without `:` or
      `/`, a port without `/` and a path starting with `/` splits back into
      exactly those parts. */
  lemma ComposedUrlSplits(host: string, port: string, path: string, u: string, p: string, q: string)
    requires ':' !in host && '/' !in host && '/' !in port && |path| > 0 && path[0] == '/'
    ensures ParseUri(HTTP_PREFIX + host + ":" + port + path, u, p, q) == UriSplit("", host, port, path)
  {
    var a := host + ":" + port;
    var rest := a + path;
    UnprefixedOf(rest);
    assert HTTP_PREFIX + host + ":" + port + path == HTTP_PREFIX + rest;
    SplitPathOf(a, path);
    SplitAuthorityOf(host, port);
  }

  /** Without a port the default `80` is reported. */
  lemma ComposedUrlDefaultPort(host: string, path: string, u: string, p: string, q: string)
    requires ':' !in host && '/' !in host && |path| > 0 && path[0] == '/'
    ensures ParseUri(HTTP_PREFIX + host + path, u, p, q) == UriSplit("", host, "80", path)
  {
    var rest := host + path;
    UnprefixedOf(rest);
    assert HTTP_PREFIX + host + path == HTTP_PREFIX + rest;
    SplitPathOf(host, path);
  }
}
