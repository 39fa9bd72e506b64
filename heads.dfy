/** The request and response heads: their fields, the `encode_to_data`
    serialisation, the keep-alive decisions, and the objects the parsers
    fill in place. */
module Heads {
  import opened Text
  import opened HttpConst
  import opened Headers

  /** `unsigned short`. */
  type Port = n: nat | n < 0x1_0000

  /** The fields of `http_request_header`. */
  datatype RequestHead = RequestHead(
    methodName: string, scheme: string, host: string, port: Port,
    pathAndQuery: string, version: HttpVersion, headers: HeaderMap)

  /** The fields of `http_response_header`. */
  datatype ResponseHead = ResponseHead(
    version: HttpVersion, status: StatusCode, description: string, headers: HeaderMap)

  /** The head a freshly constructed `http_request_header` holds: every
      string empty, port 80. The version is left uninitialised by the
      constructor; it is taken to be `v_invalid`. */
  const NEW_REQUEST: RequestHead := RequestHead("", "", "", 80, "", VInvalid, [])

  /** The head after `http_request_header::reset`: as above, but port 0. */
  const RESET_REQUEST: RequestHead := RequestHead("", "", "", 0, "", VInvalid, [])

  /** The head after `http_response_header::reset`; the constructor leaves
      version and status uninitialised, and they are taken to be these. */
  const RESET_RESPONSE: ResponseHead := ResponseHead(VInvalid, STATUS_OK, "", [])

  /** The methods `valid_method` accepts. */
  const VALID_METHODS: set<string> := {"GET", "HEAD", "POST", "PUT", "DELETE", "CONNECT"}

  /** `valid_method`. */
  predicate ValidMethod(h: RequestHead)
  {
    h.methodName in VALID_METHODS
  }

  /** `valid_version`. */
  predicate ValidVersion(h: RequestHead)
  {
    h.version != VInvalid
  }

  /** The version digits both encoders write; an invalid version is
      written as 1.0. */
  function VersionText(v: HttpVersion): (r: string)
    ensures |r| == 3 && r[1] == '.'
  {
    match v
    case VInvalid => "1.0"
    case V10 => "1.0"
    case V11 => "1.1"
  }

  /** The version digits the start-line parsers and `set_version` accept. */
  function VersionOf(text: string): (r: Option<HttpVersion>)
    ensures r.Some? ==> r.value != VInvalid && VersionText(r.value) == text
    ensures r.None? ==> forall v :: v != VInvalid ==> VersionText(v) != text
  {
    if text == "1.0" then Some(V10)
    else if text == "1.1" then Some(V11)
    else None
  }

  /** Writing a valid version and reading it back is the identity. */
  lemma VersionRoundTrip(v: HttpVersion)
    requires v != VInvalid
    ensures VersionOf(VersionText(v)) == Some(v)
  {
  }

  /** The request target `encode_to_data` writes: `host:port` for CONNECT,
      otherwise `scheme://host`, `:port` unless the port is 80 or 0, and
      the path. */
  function EncodeTarget(h: RequestHead): string
  {
    if h.methodName == "CONNECT" then h.host + ":" + NatToString(h.port)
    else
      h.scheme + "://" + h.host
      + (if h.port != 80 && h.port != 0 then ":" + NatToString(h.port) else "")
      + h.pathAndQuery
  }

  /** `http_request_header::encode_to_data`. */
  function EncodeRequest(h: RequestHead): string
  {
    h.methodName + " " + EncodeTarget(h) + " HTTP/" + VersionText(h.version)
    + "\r\n" + Encode(h.headers) + "\r\n"
  }

  /** The status line `http_response_header::encode_to_data` writes: the
      description and its separating space only when there is one. */
  function StatusLine(h: ResponseHead): string
  {
    "HTTP/" + VersionText(h.version) + " " + NatToString(h.status)
    + (if h.description != [] then " " + h.description else "") + "\r\n"
  }

  /** `http_response_header::encode_to_data`. */
  function EncodeResponse(h: ResponseHead): string
  {
    StatusLine(h) + Encode(h.headers) + "\r\n"
  }

  /** The lower-cased value of the `Connection` header, if any. */
  function ConnectionToken(headers: HeaderMap): Option<string>
  {
    match Find(headers, "Connection")
    case None => None
    case Some(v) => Some(Lower(v))
  }

  /** `http_request_header::is_keep_alive`. */
  function RequestKeepAlive(h: RequestHead): (r: bool)
  {
    var keepAlive := h.version == V11;
    match ConnectionToken(h.headers)
    case None => keepAlive
    case Some(c) =>
      if h.version == V11 && c == "close" then false
      else if h.version == V10 && c == "keep-alive" then true
      else keepAlive
  }

  /** A 1.1 request stays open unless it says `Connection: close`; a 1.0
      request closes unless it says `Connection: keep-alive`; a request of
      no valid version always closes. Case does not matter. */
  lemma RequestKeepAliveRule(h: RequestHead)
    ensures h.version == V11 ==>
      (RequestKeepAlive(h) <==> ConnectionToken(h.headers) != Some("close"))
    ensures h.version == V10 ==>
      (RequestKeepAlive(h) <==> ConnectionToken(h.headers) == Some("keep-alive"))
    ensures h.version == VInvalid ==> !RequestKeepAlive(h)
  {
  }

  /** `http_response_header::is_keep_alive`: the version decides unless
      there is a `Connection` header, which must then say `close` or
      `keep-alive`; anything else is "cannot tell". */
  function ResponseKeepAlive(h: ResponseHead): (r: Option<bool>)
  {
    match ConnectionToken(h.headers)
    case None => Some(h.version == V11)
    case Some(c) =>
      if c == "close" then Some(false)
      else if c == "keep-alive" then Some(true)
      else None
  }

  lemma ResponseKeepAliveRule(h: ResponseHead)
    ensures ResponseKeepAlive(h).None? <==>
      ConnectionToken(h.headers).Some? && ConnectionToken(h.headers).value !in {"close", "keep-alive"}
    ensures ResponseKeepAlive(h) == Some(true) <==>
      ConnectionToken(h.headers) == Some("keep-alive")
      || (ConnectionToken(h.headers).None? && h.version == V11)
  {
  }

  /** The header map after `encode_to_data(content)`: every
      `Content-Length` entry replaced by one holding the content's size. */
  function WithContentLength(headers: HeaderMap, size: nat): HeaderMap
  {
    Insert(Erase(headers, "Content-Length").0, "Content-Length", NatToString(size))
  }

  /** Afterwards there is exactly one `Content-Length` entry, it holds the
      size, the other names are untouched and the map stays in order. */
  lemma WithContentLengthContents(headers: HeaderMap, size: nat)
    requires Sorted(headers)
    ensures Named(WithContentLength(headers, size), "Content-Length")
         == [Field("Content-Length", NatToString(size))]
    ensures Find(WithContentLength(headers, size), "Content-Length") == Some(NatToString(size))
    ensures forall other :: !SameName(other, "Content-Length") ==>
      Named(WithContentLength(headers, size), other) == Named(headers, other)
    ensures Sorted(WithContentLength(headers, size))
  {
    var e := Erase(headers, "Content-Length").0;
    EraseKeepsSorted(headers, "Content-Length");
    InsertContents(e, "Content-Length", NatToString(size));
    InsertKeepsSorted(e, "Content-Length", NatToString(size));
  }

  // ---------------------------------------------------------------
  // The head objects the parsers write into.

  class RequestHeader {
    var methodName: string
    var scheme: string
    var host: string
    var port: Port
    var pathAndQuery: string
    var version: HttpVersion
    var headersMap: HeaderMap

    function Model(): RequestHead
      reads this
    {
      RequestHead(methodName, scheme, host, port, pathAndQuery, version, headersMap)
    }

    constructor ()
      ensures Model() == NEW_REQUEST
    {
      methodName, scheme, host, port, pathAndQuery := "", "", "", 80, "";
      version, headersMap := VInvalid, [];
    }

    /** `reset`: unlike the constructor, the port becomes 0. */
    method Reset()
      modifies this
      ensures Model() == RESET_REQUEST
    {
      methodName, scheme, host, port, pathAndQuery := "", "", "", 0, "";
      version, headersMap := VInvalid, [];
    }

    /** `erase_header`. */
    method EraseHeader(name: string) returns (n: nat)
      modifies this
      ensures Model() == old(Model()).(headers := Erase(old(headersMap), name).0)
      ensures n == |Named(old(headersMap), name)|
    {
      var r := Erase(headersMap, name);
      headersMap := r.0;
      n := r.1;
    }
  }

  class ResponseHeader {
    var version: HttpVersion
    var statusCode: StatusCode
    var statusDescription: string
    var headersMap: HeaderMap

    function Model(): ResponseHead
      reads this
    {
      ResponseHead(version, statusCode, statusDescription, headersMap)
    }

    constructor ()
      ensures Model() == RESET_RESPONSE
    {
      version, statusCode, statusDescription, headersMap := VInvalid, STATUS_OK, "", [];
    }

    method Reset()
      modifies this
      ensures Model() == RESET_RESPONSE
    {
      version, statusCode, statusDescription, headersMap := VInvalid, STATUS_OK, "", [];
    }

    /** `set_version`: accepts "1.0" and "1.1" only; anything else leaves
        the head unchanged and reports false. */
    method SetVersion(text: string) returns (ok: bool)
      modifies this
      ensures ok <==> VersionOf(text).Some?
      ensures ok ==> Model() == old(Model()).(version := VersionOf(text).value)
      ensures !ok ==> Model() == old(Model())
    {
      if text == "1.0" {
        version := V10;
        return true;
      } else if text == "1.1" {
        version := V11;
        return true;
      }
      return false;
    }

    method SetStatusCode(code: StatusCode)
      modifies this
      ensures Model() == old(Model()).(status := code)
    {
      statusCode := code;
    }

    method SetStatusDescription(desc: string)
      modifies this
      ensures Model() == old(Model()).(description := desc)
    {
      statusDescription := desc;
    }

    /** `add_header_value`: a multimap insert, so duplicates are kept. */
    method AddHeaderValue(key: string, value: string)
      modifies this
      ensures Model() == old(Model()).(headers := Insert(old(headersMap), key, value))
    {
      headersMap := Insert(headersMap, key, value);
    }

    method EraseHeader(name: string) returns (n: nat)
      modifies this
      ensures Model() == old(Model()).(headers := Erase(old(headersMap), name).0)
      ensures n == |Named(old(headersMap), name)|
    {
      var r := Erase(headersMap, name);
      headersMap := r.0;
      n := r.1;
    }

    /** `encode_to_data(content)`: replaces `Content-Length` by the size of
        the content, then writes the head followed by the content. */
    method EncodeToDataWithContent(content: string) returns (r: string)
      modifies this
      ensures Model() == old(Model()).(headers := WithContentLength(old(headersMap), |content|))
      ensures r == EncodeResponse(Model()) + content
    {
      headersMap := WithContentLength(headersMap, |content|);
      r := EncodeResponse(Model()) + content;
    }
  }
}
