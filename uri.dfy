/** The three `std::regex` patterns that dissect a request target, as
    explicit split functions:

      `(.+?)://(.+?)(:(\d+))?(/.*)`   an absolute URI,
      `(.+?)(:(\d+))?(/.*)?`          a host with optional port and path,
      `(.+?):(\d+)`                   a CONNECT target.

    `regex_match` needs the whole input to match. A lazy `(.+?)` tries
    the shortest non-empty prefix first, and a group to its right is
    explored fully before the prefix grows. The first match found is
    therefore the one with the shortest scheme and then the shortest
    host. `.` is the ECMAScript dot: any character except CR and LF. */
module Uri {
  import opened Text

  /** ECMAScript `.` over bytes: anything but a line terminator. */
  predicate Dots(s: string)
  {
    forall i :: 0 <= i < |s| ==> s[i] != '\n' && s[i] != '\r'
  }

  /** The part of a pattern that follows the lazy host group. */
  datatype Tail =
    | PortThenPath     // `(:(\d+))?(/.*)`
    | OptPortOptPath   // `(:(\d+))?(/.*)?`
    | PortOnly         // `:(\d+)`

  /** What the groups after the host captured: the port digits and the
      path, each when its group took part in the match. */
  datatype Groups = Groups(port: Option<string>, path: Option<string>)

  function PortText(p: Option<string>): string
  {
    if p.Some? then ":" + p.value else ""
  }

  function PathText(p: Option<string>): string
  {
    if p.Some? then p.value else ""
  }

  /** The tail pattern `t` matches all of `r` with captures `g`. */
  predicate TailMatches(t: Tail, r: string, g: Groups)
  {
    r == PortText(g.port) + PathText(g.path)
    && (g.port.Some? ==> g.port.value != [] && AllDigits(g.port.value))
    && (g.path.Some? ==> g.path.value != [] && g.path.value[0] == '/' && Dots(g.path.value))
    && match t
       case PortThenPath => g.path.Some?
       case OptPortOptPath => true
       case PortOnly => g.port.Some? && g.path.None?
  }

  /** The length of the run of decimal digits that starts `s` (what the
      greedy `\d+` takes). */
  function DigitRun(s: string): (n: nat)
    ensures n <= |s|
    ensures forall i :: 0 <= i < n ==> IsDigit(s[i])
    ensures n < |s| ==> !IsDigit(s[n])
  {
    if s == [] || !IsDigit(s[0]) then 0 else 1 + DigitRun(s[1..])
  }

  /** The path group after the port: `(/.*)` when `t` requires it,
      `(/.*)?` when it is optional, nothing for a CONNECT target.
      `Some(None)` means a match with the group absent. */
  function MatchPath(t: Tail, r: string): Option<Option<string>>
  {
    if r == [] then (if t == PortThenPath then None else Some(None))
    else if t != PortOnly && r[0] == '/' && Dots(r) then Some(Some(r))
    else None
  }

  /** Matches the tail pattern against all of `r`. The port group is tried
      first; a greedy `\d+` that cannot be followed gives nothing shorter,
      since a digit can start neither `/` nor the end. */
  function MatchTail(t: Tail, r: string): Option<Groups>
  {
    if r != [] && r[0] == ':' && DigitRun(r[1..]) > 0 then
      var n := DigitRun(r[1..]);
      match MatchPath(t, r[1 + n..])
      case Some(path) => Some(Groups(Some(r[1..1 + n]), path))
      case None => None
    else if t == PortOnly then None
    else
      match MatchPath(t, r)
      case Some(path) => Some(Groups(None, path))
      case None => None
  }

  lemma {:induction false} DigitRunOf(d: string, rest: string)
    requires AllDigits(d) && (rest == [] || !IsDigit(rest[0]))
    decreases |d|
    ensures DigitRun(d + rest) == |d|
  {
    if d == [] {
      assert d + rest == rest;
    } else {
      assert (d + rest)[1..] == d[1..] + rest;
      DigitRunOf(d[1..], rest);
    }
  }

  /** The matcher and the declarative reading agree: the tail matches with
      captures `g` exactly when `MatchTail` returns `g`. In particular
      the captures are unique. */
  lemma MatchTailIff(t: Tail, r: string, g: Groups)
    ensures MatchTail(t, r) == Some(g) <==> TailMatches(t, r, g)
  {
    if MatchTail(t, r) == Some(g) {
      MatchTailSound(t, r);
    }
    if TailMatches(t, r, g) {
      MatchTailComplete(t, r, g);
    }
  }

  lemma MatchTailSound(t: Tail, r: string)
    requires MatchTail(t, r).Some?
    ensures TailMatches(t, r, MatchTail(t, r).value)
  {
    var g := MatchTail(t, r).value;
    if r != [] && r[0] == ':' && DigitRun(r[1..]) > 0 {
      var n := DigitRun(r[1..]);
      var d, rest := r[1..1 + n], r[1 + n..];
      assert g == Groups(Some(d), MatchPath(t, rest).value);
      assert PathText(g.path) == rest;
      assert AllDigits(d) by {
        forall k | 0 <= k < |d| ensures IsDigit(d[k]) {
          assert d[k] == r[1..][k];
        }
      }
      assert r == ":" + d + rest;
    } else {
      assert g == Groups(None, MatchPath(t, r).value);
      assert PathText(g.path) == r;
    }
  }

  lemma MatchTailComplete(t: Tail, r: string, g: Groups)
    requires TailMatches(t, r, g)
    ensures MatchTail(t, r) == Some(g)
  {
    var path := PathText(g.path);
    assert path == [] || path[0] == '/';
    if g.port.Some? {
      var d := g.port.value;
      assert r == ":" + (d + path);
      assert r[1..] == d + path;
      DigitRunOf(d, path);
      assert r[1..1 + |d|] == d;
      assert r[1 + |d|..] == path;
    } else {
      assert r == path;
    }
  }

  /** Every character a matching tail spells is a dot. */
  lemma TailIsDots(t: Tail, r: string, g: Groups)
    requires TailMatches(t, r, g)
    ensures Dots(r)
  {
    var p, q := PortText(g.port), PathText(g.path);
    forall i | 0 <= i < |r| ensures r[i] != '\n' && r[i] != '\r' {
      if i < |p| {
        assert r[i] == p[i];
        if i > 0 {
          assert p[i] == g.port.value[i - 1];
        }
      } else {
        assert r[i] == q[i - |p|];
      }
    }
  }

  /** The lazy host group may end after `k` characters of `u`. */
  predicate HostAt(t: Tail, u: string, k: nat)
  {
    0 < k <= |u| && Dots(u[..k]) && MatchTail(t, u[k..]).Some?
  }

  /** The shortest host length from `k` on. */
  function FindHost(t: Tail, u: string, k: nat): (r: Option<nat>)
    requires 0 < k
    decreases |u| + 1 - k
    ensures r.Some? ==> k <= r.value && HostAt(t, u, r.value)
    ensures r.Some? ==> forall j :: k <= j < r.value ==> !HostAt(t, u, j)
    ensures r.None? ==> forall j :: k <= j ==> !HostAt(t, u, j)
  {
    if k > |u| then None
    else if HostAt(t, u, k) then Some(k)
    else FindHost(t, u, k + 1)
  }

  /** The lazy scheme group of an absolute URI may end after `k`
      characters: `://` follows and the rest has a host and a tail. */
  predicate SchemeAt(u: string, k: nat)
  {
    0 < k && k + 3 <= |u| && Dots(u[..k]) && u[k..k + 3] == "://"
    && FindHost(PortThenPath, u[k + 3..], 1).Some?
  }

  /** The shortest scheme length from `k` on. */
  function FindScheme(u: string, k: nat): (r: Option<nat>)
    requires 0 < k
    decreases |u| + 1 - k
    ensures r.Some? ==> k <= r.value && SchemeAt(u, r.value)
    ensures r.Some? ==> forall j :: k <= j < r.value ==> !SchemeAt(u, j)
    ensures r.None? ==> forall j :: k <= j ==> !SchemeAt(u, j)
  {
    if k + 3 > |u| then None
    else if SchemeAt(u, k) then Some(k)
    else FindScheme(u, k + 1)
  }

  /** The captures of one match: scheme (empty for the patterns without
      one), host, port digits and path. */
  datatype Dissected = Dissected(scheme: string, host: string, port: Option<string>, path: Option<string>)

  /** `(.+?)` followed by tail `t`. */
  function SplitHost(t: Tail, u: string): Option<Dissected>
  {
    match FindHost(t, u, 1)
    case None => None
    case Some(k) =>
      var g := MatchTail(t, u[k..]).value;
      Some(Dissected("", u[..k], g.port, g.path))
  }

  /** `(.+?)://(.+?)(:(\d+))?(/.*)`. */
  function SplitAbsolute(u: string): Option<Dissected>
  {
    match FindScheme(u, 1)
    case None => None
    case Some(k) =>
      match SplitHost(PortThenPath, u[k + 3..])
      case None => None
      case Some(d) => Some(d.(scheme := u[..k]))
  }

  /** `u` is host `h` followed by a tail that `t` matches with `g`. */
  predicate HostForm(t: Tail, u: string, h: string, g: Groups)
  {
    h != [] && Dots(h) && u == h + PortText(g.port) + PathText(g.path)
    && TailMatches(t, PortText(g.port) + PathText(g.path), g)
  }

  /** `u` is an absolute URI with scheme `s`, host `h` and captures `g`. */
  predicate AbsoluteForm(u: string, s: string, h: string, g: Groups)
  {
    s != [] && Dots(s) && |s| + 3 <= |u| && u[..|s| + 3] == s + "://"
    && HostForm(PortThenPath, u[|s| + 3..], h, g)
  }

  lemma HostFormAt(t: Tail, u: string, h: string, g: Groups)
    requires HostForm(t, u, h, g)
    ensures HostAt(t, u, |h|) && MatchTail(t, u[|h|..]) == Some(g) && u[..|h|] == h
  {
    var r := PortText(g.port) + PathText(g.path);
    assert u == h + r;
    assert u[..|h|] == h && u[|h|..] == r;
    MatchTailIff(t, r, g);
  }

  /** A host end the search accepts gives a host form. */
  lemma HostAtForm(t: Tail, u: string, k: nat)
    requires HostAt(t, u, k)
    ensures HostForm(t, u, u[..k], MatchTail(t, u[k..]).value)
  {
    var r := u[k..];
    MatchTailSound(t, r);
    assert u == u[..k] + r;
  }

  /** What `SplitHost` returns is a match, and no shorter host matches;
      `None` means there is no match at all. */
  lemma SplitHostIsFirstMatch(t: Tail, u: string)
    ensures SplitHost(t, u).Some? ==>
      var d := SplitHost(t, u).value;
      d.scheme == [] && HostForm(t, u, d.host, Groups(d.port, d.path))
      && forall h, g :: HostForm(t, u, h, g) ==> |d.host| <= |h|
    ensures SplitHost(t, u).None? ==> forall h, g :: !HostForm(t, u, h, g)
  {
    forall h, g | HostForm(t, u, h, g)
      ensures FindHost(t, u, 1).Some? && FindHost(t, u, 1).value <= |h|
    {
      HostFormAt(t, u, h, g);
    }
    if SplitHost(t, u).Some? {
      HostAtForm(t, u, FindHost(t, u, 1).value);
    }
  }

  /** Same for absolute URIs: the scheme is the shortest possible, and
      the host the shortest possible after that scheme. */
  lemma SplitAbsoluteIsFirstMatch(u: string)
    ensures SplitAbsolute(u).Some? ==>
      var d := SplitAbsolute(u).value;
      AbsoluteForm(u, d.scheme, d.host, Groups(d.port, d.path))
      && forall s, h, g :: AbsoluteForm(u, s, h, g) ==>
           |d.scheme| < |s| || (|d.scheme| == |s| && |d.host| <= |h|)
    ensures SplitAbsolute(u).None? ==> forall s, h, g :: !AbsoluteForm(u, s, h, g)
  {
    forall s, h, g | AbsoluteForm(u, s, h, g)
      ensures FindScheme(u, 1).Some? && FindScheme(u, 1).value <= |s|
      ensures FindScheme(u, 1).value == |s| ==>
        SplitHost(PortThenPath, u[|s| + 3..]).Some?
        && |SplitHost(PortThenPath, u[|s| + 3..]).value.host| <= |h|
    {
      AbsoluteFormAt(u, s, h, g);
      SplitHostIsFirstMatch(PortThenPath, u[|s| + 3..]);
    }
    if SplitAbsolute(u).Some? {
      var k := FindScheme(u, 1).value;
      var rest := u[k + 3..];
      SplitHostIsFirstMatch(PortThenPath, rest);
      assert u[..k + 3] == u[..k] + "://";
    }
  }

  lemma AbsoluteFormAt(u: string, s: string, h: string, g: Groups)
    requires AbsoluteForm(u, s, h, g)
    ensures SchemeAt(u, |s|)
  {
    var k := |s|;
    assert u[..k] == u[..k + 3][..k] == s;
    assert u[k..k + 3] == u[..k + 3][k..] == "://";
    HostFormAt(PortThenPath, u[k + 3..], h, g);
  }

  /** The host pattern `(.+?)(:(\d+))?(/.*)?` fails exactly on the empty
      string and on text with a CR or LF. */
  lemma OptionalFormFails(u: string)
    ensures SplitHost(OptPortOptPath, u).None? <==> u == [] || !Dots(u)
  {
    if u != [] && Dots(u) {
      var g := Groups(None, None);
      assert u == u + PortText(g.port) + PathText(g.path);
      assert HostForm(OptPortOptPath, u, u, g);
      SplitHostIsFirstMatch(OptPortOptPath, u);
    }
    if SplitHost(OptPortOptPath, u).Some? {
      SplitHostIsFirstMatch(OptPortOptPath, u);
      var d := SplitHost(OptPortOptPath, u).value;
      HostFormIsDots(OptPortOptPath, u, d.host, Groups(d.port, d.path));
    }
  }

  /** A text one of the patterns matches has no CR or LF. */
  lemma HostFormIsDots(t: Tail, u: string, h: string, g: Groups)
    requires HostForm(t, u, h, g)
    ensures Dots(u)
  {
    var r := PortText(g.port) + PathText(g.path);
    TailIsDots(t, r, g);
    forall i | 0 <= i < |u| ensures u[i] != '\n' && u[i] != '\r' {
      if i < |h| { assert u[i] == h[i]; } else { assert u[i] == r[i - |h|]; }
    }
  }

  /** A non-empty text a tail pattern matches starts with the colon of
      the port or the slash of the path. */
  lemma MatchTailStart(t: Tail, r: string)
    requires MatchTail(t, r).Some? && r != []
    ensures r[0] == ':' || r[0] == '/'
  {
  }

  /** When a match's host holds no colon and no slash, that match is the
      one `SplitHost` finds: no shorter host can be followed by a tail. */
  lemma SplitAtFirstSeparator(t: Tail, u: string, h: string, g: Groups)
    requires HostForm(t, u, h, g)
    requires forall i :: 0 <= i < |h| ==> h[i] != ':' && h[i] != '/'
    ensures SplitHost(t, u) == Some(Dissected("", h, g.port, g.path))
  {
    HostFormAt(t, u, h, g);
    forall j | 1 <= j < |h| ensures !HostAt(t, u, j) {
      assert u[j..] != [] && u[j..][0] == h[j];
      if MatchTail(t, u[j..]).Some? {
        MatchTailStart(t, u[j..]);
      }
    }
    assert FindHost(t, u, 1) == Some(|h|);
  }

  /** A plain host name (no colon, no slash) is taken whole, with neither
      port nor path. */
  lemma PlainHost(u: string)
    requires u != [] && Dots(u)
    requires forall i :: 0 <= i < |u| ==> u[i] != ':' && u[i] != '/'
    ensures SplitHost(OptPortOptPath, u) == Some(Dissected("", u, None, None))
  {
    var g := Groups(None, None);
    assert u == u + PortText(g.port) + PathText(g.path);
    SplitAtFirstSeparator(OptPortOptPath, u, u, g);
  }

  /** A host, `:` and a port in decimal: the split is at that colon, for
      the host pattern and for a CONNECT target alike. */
  lemma HostColonPort(t: Tail, host: string, port: nat)
    requires t != PortThenPath
    requires host != [] && Dots(host)
    requires forall i :: 0 <= i < |host| ==> host[i] != ':' && host[i] != '/'
    ensures SplitHost(t, host + ":" + NatToString(port))
         == Some(Dissected("", host, Some(NatToString(port)), None))
  {
    var u := host + ":" + NatToString(port);
    var g := Groups(Some(NatToString(port)), None);
    assert u == host + PortText(g.port) + PathText(g.path);
    SplitAtFirstSeparator(t, u, host, g);
  }

  /** An absolute URI whose scheme holds no colon and whose host holds no
      colon and no slash is split at its first `://` and at the first
      separator after it. */
  lemma SplitAbsoluteAtFirstSeparators(u: string, s: string, h: string, g: Groups)
    requires AbsoluteForm(u, s, h, g)
    requires forall i :: 0 <= i < |s| ==> s[i] != ':'
    requires forall i :: 0 <= i < |h| ==> h[i] != ':' && h[i] != '/'
    ensures SplitAbsolute(u) == Some(Dissected(s, h, g.port, g.path))
  {
    AbsoluteFormAt(u, s, h, g);
    forall j | 1 <= j < |s| ensures !SchemeAt(u, j) {
      assert u[j] == u[..|s| + 3][j] == s[j];
      assert j + 3 <= |u| ==> u[j..j + 3][0] == u[j];
    }
    assert FindScheme(u, 1) == Some(|s|);
    SplitAtFirstSeparator(PortThenPath, u[|s| + 3..], h, g);
    assert u[..|s|] == u[..|s| + 3][..|s|] == s;
  }
}
