/** `http_header_parser::parse_headers`: the byte-level state machine that
    reads a header block (the field lines after the start line, up to and
    including the empty line) and inserts every field into a
    case-insensitive multimap. */
module HeaderParser {
  import opened Text
  import opened HttpConst
  import opened Headers

  /** The `tokens` table, row by row (16 code points each). */
  const TOKEN_ROWS: seq<seq<int>> := [
    [0, 0, 0, 0, 0, 0, 0, 0, 0, 0, 0, 0, 0, 0, 0, 0],
    [0, 0, 0, 0, 0, 0, 0, 0, 0, 0, 0, 0, 0, 0, 0, 0],
    [0, 1, 0, 1, 1, 1, 1, 1, 0, 0, 1, 1, 0, 1, 1, 0],
    [1, 1, 1, 1, 1, 1, 1, 1, 1, 1, 0, 0, 0, 0, 0, 0],
    [0, 1, 1, 1, 1, 1, 1, 1, 1, 1, 1, 1, 1, 1, 1, 1],
    [1, 1, 1, 1, 1, 1, 1, 1, 1, 1, 1, 0, 0, 0, 1, 1],
    [1, 1, 1, 1, 1, 1, 1, 1, 1, 1, 1, 1, 1, 1, 1, 1],
    [1, 1, 1, 1, 1, 1, 1, 1, 1, 1, 1, 0, 1, 0, 1, 0]
  ]

  /** `is_token_char`: bytes from 128 up are never token characters. */
  predicate IsTokenChar(c: char)
  {
    c as int < 128 && TOKEN_ROWS[c as int / 16][c as int % 16] == 1
  }

  /** `tchar` as section 3.2.6 of RFC 7230 lists it. */
  predicate IsTchar(c: char)
  {
    ('0' <= c <= '9') || ('a' <= c <= 'z') || ('A' <= c <= 'Z')
    || c == '!' || c == '#' || c == '$' || c == '%' || c == '&' || c == '\''
    || c == '*' || c == '+' || c == '-' || c == '.' || c == '^' || c == '_'
    || c == '`' || c == '|' || c == '~'
  }

  lemma RowIsTchar(r: nat, k: nat)
    requires r < 8 && k < 16
    ensures TOKEN_ROWS[r][k] == 1 <==> IsTchar((16 * r + k) as char)
  {
    var row := TOKEN_ROWS[r];
    if r == 0 { assert row == [0, 0, 0, 0, 0, 0, 0, 0, 0, 0, 0, 0, 0, 0, 0, 0]; }
    else if r == 1 { assert row == [0, 0, 0, 0, 0, 0, 0, 0, 0, 0, 0, 0, 0, 0, 0, 0]; }
    else if r == 2 { assert row == [0, 1, 0, 1, 1, 1, 1, 1, 0, 0, 1, 1, 0, 1, 1, 0]; }
    else if r == 3 { assert row == [1, 1, 1, 1, 1, 1, 1, 1, 1, 1, 0, 0, 0, 0, 0, 0]; }
    else if r == 4 { assert row == [0, 1, 1, 1, 1, 1, 1, 1, 1, 1, 1, 1, 1, 1, 1, 1]; }
    else if r == 5 { assert row == [1, 1, 1, 1, 1, 1, 1, 1, 1, 1, 1, 0, 0, 0, 1, 1]; }
    else if r == 6 { assert row == [1, 1, 1, 1, 1, 1, 1, 1, 1, 1, 1, 1, 1, 1, 1, 1]; }
    else { assert row == [1, 1, 1, 1, 1, 1, 1, 1, 1, 1, 1, 0, 1, 0, 1, 0]; }
  }

  /** The table encodes exactly the `tchar` set. */
  lemma TokenTableIsTchar(c: char)
    ensures IsTokenChar(c) <==> IsTchar(c)
  {
    if c as int < 128 {
      RowIsTchar(c as int / 16, c as int % 16);
      assert (16 * (c as int / 16) + c as int % 16) as char == c;
    }
  }

  /** `parse_header_state`. */
  datatype Phase =
    | NameStart | Name | ValueLeftOws | Value
    | FieldCr | FieldCrlf | FieldCrlfCr | Complete | Failed

  /** The loop's variables: the state, the field name and value being
      collected, and the multimap filled so far. */
  datatype Scan = Scan(phase: Phase, name: string, value: string, headers: HeaderMap)

  /** One iteration of the loop, on byte `c`; `first` tells whether `c` is
      the first byte of the block (`iter == begin`). */
  function HStep(st: Scan, c: char, first: bool): (r: Scan)
    ensures r.phase == Complete ==> st.phase == Complete || c == '\n'
  {
    match st.phase
    case NameStart =>
      if IsTchar(c) then st.(phase := Name, name := st.name + [c])
      else if first && c == '\r' then st.(phase := FieldCrlfCr)
      else st.(phase := Failed)
    case Name =>
      if IsTchar(c) then st.(name := st.name + [c])
      else if c == ':' then st.(phase := ValueLeftOws)
      else st.(phase := Failed)
    case ValueLeftOws =>
      if c == ' ' || c == '\t' then st
      else if c == '\r' then st.(phase := FieldCr)
      else st.(phase := Value, value := st.value + [c])
    case Value =>
      if c == '\r' then st.(phase := FieldCr) else st.(value := st.value + [c])
    case FieldCr =>
      if c == '\n' then st.(phase := FieldCrlf) else st.(phase := Failed)
    case FieldCrlf =>
      if c == ' ' || c == '\t' then st.(phase := Value, value := st.value + [c])
      else
        // remove_trail_blank leaves the value as it is
        var h := Insert(st.headers, st.name, st.value);
        if c == '\r' then Scan(FieldCrlfCr, "", "", h)
        else if IsTchar(c) then Scan(Name, [c], "", h)
        else Scan(Failed, "", "", h)
    case FieldCrlfCr =>
      if c == '\n' then st.(phase := Complete) else st
    case Complete => st
    case Failed => st
  }

  predicate Stopped(st: Scan)
  {
    st.phase == Complete || st.phase == Failed
  }

  /** The loop from offset `i`: it runs until the input ends or the state
      is complete or failed, and yields the final state and offset. */
  function HRun(st: Scan, s: string, i: nat): (r: (Scan, nat))
    requires i <= |s|
    decreases |s| - i
    ensures i <= r.1 <= |s|
    ensures r.1 < |s| ==> Stopped(r.0)
  {
    if i == |s| || Stopped(st) then (st, i)
    else HRun(HStep(st, s[i], i == 0), s, i + 1)
  }

  /** A step never removes a field: the map only gains entries. */
  lemma HStepGrows(st: Scan, c: char, first: bool)
    ensures multiset(st.headers) <= multiset(HStep(st, c, first).headers)
  {
    HStepHeaders(st, c, first);
    if st.phase == FieldCrlf && !(c == ' ' || c == '\t') {
      InsertMultiset(st.headers, st.name, st.value);
    }
  }

  /** Only the step that ends a field line changes the map. */
  lemma HStepHeaders(st: Scan, c: char, first: bool)
    ensures HStep(st, c, first).headers
         == if st.phase == FieldCrlf && !(c == ' ' || c == '\t')
            then Insert(st.headers, st.name, st.value) else st.headers
  {
    match st.phase
    case FieldCrlf =>
    case _ =>
  }

  lemma {:induction false} HRunGrows(st: Scan, s: string, i: nat, r: (Scan, nat))
    requires i <= |s| && r == HRun(st, s, i)
    decreases |s| - i
    ensures multiset(st.headers) <= multiset(r.0.headers)
  {
    if i < |s| && !Stopped(st) {
      var next := HStep(st, s[i], i == 0);
      HStepGrows(st, s[i], i == 0);
      Unfold(st, s, i);
      HRunGrows(next, s, i + 1, r);
      var m0, m1, m2 := multiset(st.headers), multiset(next.headers), multiset(r.0.headers);
      assert m0 <= m1 <= m2;
    }
  }

  /** The loop keeps the map in order. */
  lemma {:induction false} HRunSorted(st: Scan, s: string, i: nat, r: (Scan, nat))
    requires i <= |s| && Sorted(st.headers) && r == HRun(st, s, i)
    decreases |s| - i
    ensures Sorted(r.0.headers)
  {
    if i < |s| && !Stopped(st) {
      HStepHeaders(st, s[i], i == 0);
      if st.phase == FieldCrlf && !(s[i] == ' ' || s[i] == '\t') {
        InsertKeepsSorted(st.headers, st.name, st.value);
      }
      Unfold(st, s, i);
      HRunSorted(HStep(st, s[i], i == 0), s, i + 1, r);
    }
  }

  /** The loop reaches the complete state only on an LF, and stops right
      after it. */
  lemma {:induction false} HRunEndsWithLf(st: Scan, s: string, i: nat)
    requires i <= |s| && st.phase != Complete
    requires HRun(st, s, i).0.phase == Complete
    decreases |s| - i
    ensures i < HRun(st, s, i).1 && s[HRun(st, s, i).1 - 1] == '\n'
  {
    if i < |s| && !Stopped(st) {
      var next := HStep(st, s[i], i == 0);
      if next.phase != Complete {
        HRunEndsWithLf(next, s, i + 1);
      }
    }
  }

  const START: Scan := Scan(NameStart, "", "", [])

  /** `parse_headers`: `(read_one_header, n)` once the block is complete,
      `n` being the offset just past its final LF; `(buffer_overflow, 0)`
      when the input ends first or a byte is out of place. The fields
      inserted before a failure stay in the map. */
  function ParseHeadersSpec(s: string, h: HeaderMap): (r: (ParserResult, nat, HeaderMap))
    ensures r.0 == ReadOneHeader || r.0 == BufferOverflow
    ensures r.0 == BufferOverflow ==> r.1 == 0
    ensures r.0 == ReadOneHeader ==> 0 < r.1 <= |s| && s[r.1 - 1] == '\n'
    ensures multiset(h) <= multiset(r.2)
    ensures Sorted(h) ==> Sorted(r.2)
  {
    var (st, k) := HRun(START.(headers := h), s, 0);
    HRunGrows(START.(headers := h), s, 0, (st, k));
    assert Sorted(h) ==> Sorted(st.headers) by {
      if Sorted(h) {
        HRunSorted(START.(headers := h), s, 0, (st, k));
      }
    }
    if st.phase == Complete then
      HRunEndsWithLf(START.(headers := h), s, 0);
      (ReadOneHeader, k, st.headers)
    else (BufferOverflow, 0, st.headers)
  }

  /** The loop as written, over the bytes of the block. */
  method ParseHeaders(s: seq<Byte>, headers: HeaderMap) returns (res: ParserResult, n: nat, out: HeaderMap)
    ensures (res, n, out) == ParseHeadersSpec(s, headers)
  {
    var phase := NameStart;
    var name := "";
    var value := "";
    var hs := headers;
    var iter := 0;
    while iter < |s| && phase != Complete && phase != Failed
      invariant 0 <= iter <= |s|
      invariant HRun(Scan(phase, name, value, hs), s, iter) == HRun(START.(headers := headers), s, 0)
      decreases |s| - iter
    {
      var c := s[iter];
      phase, name, value, hs := Advance(phase, name, value, hs, c, iter == 0);
      iter := iter + 1;
    }
    out := hs;
    if phase != Complete {
      res, n := BufferOverflow, 0;
    } else {
      res, n := ReadOneHeader, iter;
    }
  }

  /** The body of the loop: the `switch` on the state for one byte. */
  method Advance(phase0: Phase, name0: string, value0: string, hs0: HeaderMap, c: Byte, first: bool)
    returns (phase: Phase, name: string, value: string, hs: HeaderMap)
    ensures Scan(phase, name, value, hs) == HStep(Scan(phase0, name0, value0, hs0), c, first)
  {
    TokenTableIsTchar(c);
    phase, name, value, hs := phase0, name0, value0, hs0;
    match phase {
      case NameStart =>
        if IsTokenChar(c) {
          name := name + [c];
          phase := Name;
        } else if first && c == '\r' {
          phase := FieldCrlfCr;
        } else {
          phase := Failed;
        }
      case Name =>
        if IsTokenChar(c) {
          name := name + [c];
        } else if c == ':' {
          phase := ValueLeftOws;
        } else {
          phase := Failed;
        }
      case ValueLeftOws =>
        if c == ' ' || c == '\t' {
        } else if c == '\r' {
          phase := FieldCr;
        } else {
          value := value + [c];
          phase := Value;
        }
      case Value =>
        if c == '\r' {
          phase := FieldCr;
        } else {
          value := value + [c];
        }
      case FieldCr =>
        if c == '\n' {
          phase := FieldCrlf;
        } else {
          phase := Failed;
        }
      case FieldCrlf =>
        if c == ' ' || c == '\t' {
          value := value + [c];
          phase := Value;
        } else {
          var trimmed := RemoveTrailBlank(value);
          hs := Insert(hs, name, trimmed);
          name := "";
          value := "";
          if c == '\r' {
            phase := FieldCrlfCr;
          } else if IsTokenChar(c) {
            name := name + [c];
            phase := Name;
          } else {
            phase := Failed;
          }
        }
      case FieldCrlfCr =>
        if c == '\n' {
          phase := Complete;
        }
      case Complete =>
      case Failed =>
    }
  }

  /** Bytes after a complete block are never read: `n` marks the end of
      the block whichever bytes follow it. */
  lemma CompleteStopsReading(s: string, t: string, h: HeaderMap)
    requires ParseHeadersSpec(s, h).0 == ReadOneHeader
    ensures ParseHeadersSpec(s[..ParseHeadersSpec(s, h).1] + t, h) == ParseHeadersSpec(s, h)
  {
    var n := ParseHeadersSpec(s, h).1;
    RunPrefix(START.(headers := h), s, s[..n] + t, 0, n);
  }

  /** Two inputs that agree on the bytes the loop reads lead to the same
      run. */
  lemma {:induction false} RunPrefix(st: Scan, s: string, u: string, i: nat, n: nat)
    requires i <= n <= |s| && n <= |u| && s[..n] == u[..n]
    requires HRun(st, s, i).1 == n && HRun(st, s, i).0.phase == Complete
    decreases |s| - i
    ensures HRun(st, u, i) == HRun(st, s, i)
  {
    if i < |s| && !Stopped(st) {
      assert s[i] == s[..n][i] == u[..n][i] == u[i];
      RunPrefix(HStep(st, s[i], i == 0), s, u, i + 1, n);
    }
  }

  /** One turn of the loop. */
  lemma Unfold(st: Scan, s: string, i: nat)
    requires i < |s| && !Stopped(st)
    ensures HRun(st, s, i) == HRun(HStep(st, s[i], i == 0), s, i + 1)
  {
  }

  /** One turn of the loop past the first byte, with its outcome given. */
  lemma Step(st: Scan, next: Scan, s: string, i: nat)
    requires 0 < i < |s| && !Stopped(st)
    requires HStep(st, s[i], false) == next
    ensures HRun(st, s, i) == HRun(next, s, i + 1)
  {
  }

  /** An empty line right away is an empty block of two bytes. */
  lemma EmptyBlock(s: string, h: HeaderMap)
    requires |s| >= 2 && s[0] == '\r' && s[1] == '\n'
    ensures ParseHeadersSpec(s, h) == (ReadOneHeader, 2, h)
  {
    var st1 := Scan(FieldCrlfCr, "", "", h);
    Unfold(START.(headers := h), s, 0);
    assert HStep(START.(headers := h), s[0], true) == st1;
    Unfold(st1, s, 1);
    assert HStep(st1, s[1], false) == Scan(Complete, "", "", h);
  }

  /** After a CR in the last state, other bytes are skipped until an LF:
      a CR, a stray byte and an LF also end the block. */
  lemma CrCrSkipsBytes(h: HeaderMap)
    ensures ParseHeadersSpec("\r\rX\n", h) == (ReadOneHeader, 4, h)
  {
    var s := "\r\rX\n";
    var st := Scan(FieldCrlfCr, "", "", h);
    assert HStep(START.(headers := h), s[0], true) == st;
    assert HStep(st, s[1], false) == st;
    assert HStep(st, s[2], false) == st;
    assert HStep(st, s[3], false) == st.(phase := Complete);
  }

  /** A block whose first byte is neither a token character nor CR fails
      without touching the map. */
  lemma StrayFirstByteFails(s: string, h: HeaderMap)
    requires |s| > 0 && !IsTchar(s[0]) && s[0] != '\r'
    ensures ParseHeadersSpec(s, h) == (BufferOverflow, 0, h)
  {
    Unfold(START.(headers := h), s, 0);
    assert HStep(START.(headers := h), s[0], true) == START.(headers := h, phase := Failed);
  }

  /** The loop in the name state over a run of token characters. */
  lemma {:induction false} RunNameChars(name: string, hs: HeaderMap, s: string, i: nat, j: nat)
    requires i <= j <= |s|
    requires forall k :: i <= k < j ==> IsTchar(s[k])
    decreases j - i
    ensures HRun(Scan(Name, name, "", hs), s, i) == HRun(Scan(Name, name + s[i..j], "", hs), s, j)
  {
    if i < j {
      assert name + s[i..j] == (name + [s[i]]) + s[i + 1..j];
      RunNameChars(name + [s[i]], hs, s, i + 1, j);
    } else {
      assert name + s[i..j] == name;
    }
  }

  /** A field name (one or more token characters) followed by anything
      but a token character or a colon fails the block. */
  lemma MissingColonFails(name: string, c: char, rest: string, h: HeaderMap)
    requires |name| > 0 && (forall k :: 0 <= k < |name| ==> IsTchar(name[k]))
    requires !IsTchar(c) && c != ':'
    ensures ParseHeadersSpec(name + [c] + rest, h) == (BufferOverflow, 0, h)
  {
    var s := name + [c] + rest;
    var st1 := Scan(Name, [name[0]], "", h);
    assert s[0] == name[0];
    assert HStep(START.(headers := h), s[0], true) == st1;
    RunNameChars([name[0]], h, s, 1, |name|);
    assert [name[0]] + s[1..|name|] == name;
    assert s[|name|] == c;
    assert HStep(Scan(Name, name, "", h), c, false) == Scan(Failed, name, "", h);
  }

  /** The loop in the value state over bytes other than CR. */
  lemma {:induction false} RunValueChars(name: string, value: string, hs: HeaderMap, s: string, i: nat, j: nat)
    requires i <= j <= |s|
    requires forall k :: i <= k < j ==> s[k] != '\r'
    decreases j - i
    ensures HRun(Scan(Value, name, value, hs), s, i) == HRun(Scan(Value, name, value + s[i..j], hs), s, j)
  {
    if i < j {
      assert value + s[i..j] == (value + [s[i]]) + s[i + 1..j];
      RunValueChars(name, value + [s[i]], hs, s, i + 1, j);
    } else {
      assert value + s[i..j] == value;
    }
  }

  /** A field the parser reads back as written: a non-empty token name, a
      value with no CR that does not start with SP or HT. */
  predicate WellFormedField(f: Field)
  {
    |f.name| > 0 && (forall k :: 0 <= k < |f.name| ==> IsTchar(f.name[k]))
    && (forall k :: 0 <= k < |f.value| ==> f.value[k] != '\r')
    && (|f.value| > 0 ==> f.value[0] != ' ' && f.value[0] != '\t')
  }

  predicate AllWellFormed(fs: seq<Field>)
  {
    fs == [] || (WellFormedField(fs[0]) && AllWellFormed(fs[1..]))
  }

  /** Bytes of `s` from `p` on spell `e`. */
  predicate SpellsAt(s: string, p: nat, e: string)
  {
    Spelled(s, p, e)
  }

  predicate Spelled(s: string, p: nat, e: string)
    decreases |e|
  {
    p + |e| <= |s| && (e == [] || (s[p] == e[0] && Spelled(s, p + 1, e[1..])))
  }

  lemma {:induction false} SpellsAtIndex(s: string, p: nat, e: string, k: nat)
    requires SpellsAt(s, p, e) && k < |e|
    decreases k
    ensures p + k < |s| && s[p + k] == e[k]
  {
    if k > 0 {
      SpellsAtIndex(s, p + 1, e[1..], k - 1);
    }
  }

  lemma {:induction false} SpellsAtSplit(s: string, p: nat, a: string, b: string)
    requires SpellsAt(s, p, a + b)
    decreases |a|
    ensures SpellsAt(s, p, a) && SpellsAt(s, p + |a|, b)
  {
    if a == [] {
      assert a + b == b;
    } else {
      assert (a + b)[1..] == a[1..] + b;
      SpellsAtSplit(s, p + 1, a[1..], b);
    }
  }

  lemma {:induction false} SpellsAtSlice(s: string, p: nat, e: string)
    requires SpellsAt(s, p, e)
    decreases |e|
    ensures s[p..p + |e|] == e
  {
    if e != [] {
      SpellsAtSlice(s, p + 1, e[1..]);
      assert s[p..p + |e|] == [s[p]] + s[p + 1..p + |e|];
    }
  }

  /** A string spells itself from its start. */
  lemma SpellsAtBound(s: string, p: nat, e: string)
    requires SpellsAt(s, p, e)
    ensures p + |e| <= |s|
  {
  }

  lemma SpellsAtStart(s: string)
    ensures SpellsAt(s, 0, s)
  {
    SpellsAtSuffix(s, 0);
  }

  lemma {:induction false} SpellsAtSuffix(s: string, p: nat)
    requires p <= |s|
    decreases |s| - p
    ensures SpellsAt(s, p, s[p..])
  {
    if p < |s| {
      assert s[p..][1..] == s[p + 1..];
      SpellsAtSuffix(s, p + 1);
    }
  }

  /** The bytes of a well-formed name, spelled at `p`: all token
      characters, and the name is its first byte followed by the rest. */
  lemma NameBytes(f: Field, s: string, p: nat)
    requires WellFormedField(f) && SpellsAt(s, p, f.name + ": ")
    ensures p + |f.name| + 2 <= |s|
    ensures forall k :: p + 1 <= k < p + |f.name| ==> IsTchar(s[k])
    ensures f.name[..1] + s[p + 1..p + |f.name|] == f.name
    ensures s[p + |f.name|] == ':' && s[p + |f.name| + 1] == ' '
  {
    var n := |f.name|;
    SpellsAtSplit(s, p, f.name, ": ");
    forall k | p + 1 <= k < p + n ensures IsTchar(s[k]) {
      SpellsAtIndex(s, p, f.name, k - p);
    }
    SpellsAtSlice(s, p, f.name);
    SpellsAtIndex(s, p + n, ": ", 0);
    SpellsAtIndex(s, p + n, ": ", 1);
  }

  /** A name, read from just after its first byte up to the colon. */
  lemma NameCharsRun(f: Field, s: string, p: nat, hs: HeaderMap)
    requires WellFormedField(f) && SpellsAt(s, p, f.name + ": ")
    ensures HRun(Scan(Name, f.name[..1], "", hs), s, p + 1)
         == HRun(Scan(Name, f.name, "", hs), s, p + |f.name|)
  {
    NameBytes(f, s, p);
    RunNameChars(f.name[..1], hs, s, p + 1, p + |f.name|);
  }

  /** The name part of an encoded field, from just after its first byte
      up to the value. */
  lemma FieldNameRun(f: Field, s: string, p: nat, hs: HeaderMap)
    requires WellFormedField(f) && SpellsAt(s, p, f.name + ": ")
    ensures HRun(Scan(Name, f.name[..1], "", hs), s, p + 1)
         == HRun(Scan(ValueLeftOws, f.name, "", hs), s, p + |f.name| + 2)
  {
    var n := |f.name|;
    NameCharsRun(f, s, p, hs);
    NameBytes(f, s, p);
    var st := Scan(Name, f.name, "", hs);
    var sv := st.(phase := ValueLeftOws);
    Step(st, sv, s, p + n);
    Step(sv, sv, s, p + n + 1);
  }

  /** The bytes of a well-formed value and its CRLF, spelled at `q`. */
  lemma ValueBytes(f: Field, s: string, q: nat)
    requires WellFormedField(f) && SpellsAt(s, q, f.value + "\r\n")
    ensures q + |f.value| + 2 <= |s|
    ensures forall k :: q + 1 <= k < q + |f.value| ==> s[k] != '\r'
    ensures |f.value| > 0 ==> s[q] == f.value[0] && [f.value[0]] + s[q + 1..q + |f.value|] == f.value
    ensures s[q + |f.value|] == '\r' && s[q + |f.value| + 1] == '\n'
  {
    var m := |f.value|;
    SpellsAtSplit(s, q, f.value, "\r\n");
    forall k | q + 1 <= k < q + m ensures s[k] != '\r' {
      SpellsAtIndex(s, q, f.value, k - q);
    }
    SpellsAtSlice(s, q, f.value);
    if m > 0 {
      SpellsAtIndex(s, q, f.value, 0);
    }
    SpellsAtIndex(s, q + m, "\r\n", 0);
    SpellsAtIndex(s, q + m, "\r\n", 1);
  }

  /** A non-empty value, read up to its CR. */
  lemma ValueCharsRun(f: Field, s: string, q: nat, hs: HeaderMap)
    requires WellFormedField(f) && SpellsAt(s, q, f.value + "\r\n") && q > 0
    requires |f.value| > 0
    ensures HRun(Scan(ValueLeftOws, f.name, "", hs), s, q)
         == HRun(Scan(Value, f.name, f.value, hs), s, q + |f.value|)
  {
    var m := |f.value|;
    ValueBytes(f, s, q);
    var st := Scan(ValueLeftOws, f.name, "", hs);
    Step(st, Scan(Value, f.name, [f.value[0]], hs), s, q);
    RunValueChars(f.name, [f.value[0]], hs, s, q + 1, q + m);
  }

  /** The value part of an encoded field and its CRLF. */
  lemma FieldValueRun(f: Field, s: string, q: nat, hs: HeaderMap)
    requires WellFormedField(f) && SpellsAt(s, q, f.value + "\r\n") && q > 0
    ensures HRun(Scan(ValueLeftOws, f.name, "", hs), s, q)
         == HRun(Scan(FieldCrlf, f.name, f.value, hs), s, q + |f.value| + 2)
  {
    var m := |f.value|;
    ValueBytes(f, s, q);
    var sc := Scan(FieldCr, f.name, f.value, hs);
    if m == 0 {
      Step(Scan(ValueLeftOws, f.name, "", hs), sc, s, q);
    } else {
      ValueCharsRun(f, s, q, hs);
      Step(Scan(Value, f.name, f.value, hs), sc, s, q + m);
    }
    Step(sc, Scan(FieldCrlf, f.name, f.value, hs), s, q + m + 1);
  }

  lemma EncodeFieldParts(f: Field)
    ensures EncodeField(f) == (f.name + ": ") + (f.value + "\r\n")
  {
  }

  /** One encoded field, from just after its first name byte to just
      after its CRLF: the name and value are collected, nothing inserted. */
  lemma FieldRun(f: Field, s: string, p: nat, hs: HeaderMap, r1: (Scan, nat), r2: (Scan, nat))
    requires WellFormedField(f) && SpellsAt(s, p, EncodeField(f)) && p + |EncodeField(f)| <= |s|
    requires r1 == HRun(Scan(Name, f.name[..1], "", hs), s, p + 1)
    requires r2 == HRun(Scan(FieldCrlf, f.name, f.value, hs), s, p + |EncodeField(f)|)
    ensures r1 == r2
  {
    FieldLayout(f, s, p);
    FieldNameRun(f, s, p, hs);
    FieldValueRun(f, s, p + |f.name| + 2, hs);
  }

  /** Where the name and the value of an encoded field sit. */
  lemma FieldLayout(f: Field, s: string, p: nat)
    requires SpellsAt(s, p, EncodeField(f))
    ensures SpellsAt(s, p, f.name + ": ")
    ensures SpellsAt(s, p + |f.name| + 2, f.value + "\r\n")
    ensures |EncodeField(f)| == |f.name| + 2 + |f.value| + 2
  {
    EncodeFieldParts(f);
    SpellsAtSplit(s, p, f.name + ": ", f.value + "\r\n");
  }

  /** A completed field line followed by the empty line: the field is
      inserted and the block completes after the final LF. */
  lemma LastFieldRun(f: Field, s: string, q: nat, hs: HeaderMap, r: (Scan, nat))
    requires q > 0 && SpellsAt(s, q, "\r\n") && q <= |s|
    requires r == HRun(Scan(FieldCrlf, f.name, f.value, hs), s, q)
    ensures r == (Scan(Complete, "", "", Insert(hs, f.name, f.value)), q + 2)
  {
    SpellsAtIndex(s, q, "\r\n", 0);
    SpellsAtIndex(s, q, "\r\n", 1);
    var st := Scan(FieldCrlf, f.name, f.value, hs);
    var sc := Scan(FieldCrlfCr, "", "", Insert(hs, f.name, f.value));
    Step(st, sc, s, q);
    Step(sc, sc.(phase := Complete), s, q + 1);
  }

  /** A completed field line followed by the first byte of the next name:
      the field is inserted and the next name begins. */
  lemma NextFieldRun(f: Field, g: Field, s: string, q: nat, hs: HeaderMap)
    requires q > 0 && q < |s| && WellFormedField(g) && s[q] == g.name[0]
    ensures HRun(Scan(FieldCrlf, f.name, f.value, hs), s, q)
         == HRun(Scan(Name, g.name[..1], "", Insert(hs, f.name, f.value)), s, q + 1)
  {
    var st := Scan(FieldCrlf, f.name, f.value, hs);
    assert IsTchar(g.name[0]);
    assert g.name[..1] == [s[q]];
    Step(st, Scan(Name, g.name[..1], "", Insert(hs, f.name, f.value)), s, q);
  }

  /** The encoding of a non-empty list of fields, cut after its first
      field. */
  lemma EncodeSplit(fs: seq<Field>)
    requires fs != []
    ensures Encode(fs) + "\r\n" == EncodeField(fs[0]) + (Encode(fs[1..]) + "\r\n")
    ensures |Encode(fs)| == |EncodeField(fs[0])| + |Encode(fs[1..])|
  {
    var a, b := EncodeField(fs[0]), Encode(fs[1..]);
    assert Encode(fs) == a + b;
    assert (a + b) + "\r\n" == a + (b + "\r\n");
  }

  /** The only field of a one-field block, then the empty line. */
  lemma OnlyFieldRun(fs: seq<Field>, s: string, p: nat, hs: HeaderMap, r: (Scan, nat))
    requires |fs| == 1 && WellFormedField(fs[0])
    requires SpellsAt(s, p, Encode(fs) + "\r\n")
    requires p + 1 <= |s| && r == HRun(Scan(Name, fs[0].name[..1], "", hs), s, p + 1)
    ensures r == (Scan(Complete, "", "", Insert(hs, fs[0].name, fs[0].value)), p + |Encode(fs)| + 2)
  {
    var f := fs[0];
    var q := p + |EncodeField(f)|;
    OnlyFieldLayout(fs, s, p);
    var r2 := HRun(Scan(FieldCrlf, f.name, f.value, hs), s, q);
    FieldRun(f, s, p, hs, r, r2);
    LastFieldRun(f, s, q, hs, r2);
  }

  /** Where the field and the empty line of a one-field block sit. */
  lemma OnlyFieldLayout(fs: seq<Field>, s: string, p: nat)
    requires |fs| == 1 && SpellsAt(s, p, Encode(fs) + "\r\n")
    ensures |Encode(fs)| == |EncodeField(fs[0])|
    ensures SpellsAt(s, p, EncodeField(fs[0]))
    ensures SpellsAt(s, p + |EncodeField(fs[0])|, "\r\n")
  {
    var f := fs[0];
    EncodeSplit(fs);
    assert Encode(fs[1..]) == [];
    assert Encode(fs) + "\r\n" == EncodeField(f) + "\r\n";
    SpellsAtSplit(s, p, EncodeField(f), "\r\n");
  }

  /** Where the first two fields of a block of at least two sit. */
  lemma FirstFieldLayout(fs: seq<Field>, s: string, p: nat)
    requires |fs| >= 2 && WellFormedField(fs[1])
    requires SpellsAt(s, p, Encode(fs) + "\r\n")
    ensures SpellsAt(s, p, EncodeField(fs[0]))
    ensures SpellsAt(s, p + |EncodeField(fs[0])|, Encode(fs[1..]) + "\r\n")
    ensures p + |EncodeField(fs[0])| < |s| && s[p + |EncodeField(fs[0])|] == fs[1].name[0]
  {
    EncodeSplit(fs);
    SpellsAtSplit(s, p, EncodeField(fs[0]), Encode(fs[1..]) + "\r\n");
    assert fs[1..][0] == fs[1];
    FirstByteAt(fs[1..], s, p + |EncodeField(fs[0])|);
  }

  /** Where an encoded block sits, its first byte is that of its first
      name. */
  lemma FirstByteAt(fs: seq<Field>, s: string, p: nat)
    requires fs != [] && |fs[0].name| > 0 && SpellsAt(s, p, Encode(fs) + "\r\n")
    ensures p < |s| && s[p] == fs[0].name[0]
  {
    EncodeFirstByte(fs);
    SpellsAtIndex(s, p, Encode(fs) + "\r\n", 0);
  }

  /** An encoded block starts with the first byte of its first name. */
  lemma EncodeFirstByte(fs: seq<Field>)
    requires fs != [] && |fs[0].name| > 0
    ensures |Encode(fs) + "\r\n"| > 0 && (Encode(fs) + "\r\n")[0] == fs[0].name[0]
  {
    var f := fs[0];
    var a := EncodeField(f);
    assert a == f.name + (": " + f.value + "\r\n");
    assert a[0] == f.name[0];
    EncodeSplit(fs);
    assert (a + (Encode(fs[1..]) + "\r\n"))[0] == a[0];
  }

  /** The first field of a block with more to come: it is inserted and the
      next name begins. */
  lemma FirstFieldRun(fs: seq<Field>, s: string, p: nat, hs: HeaderMap, r1: (Scan, nat), r2: (Scan, nat))
    requires |fs| >= 2 && WellFormedField(fs[0]) && WellFormedField(fs[1])
    requires SpellsAt(s, p, Encode(fs) + "\r\n") && p + |EncodeField(fs[0])| < |s|
    requires r1 == HRun(Scan(Name, fs[0].name[..1], "", hs), s, p + 1)
    requires r2 == HRun(Scan(Name, fs[1].name[..1], "", Insert(hs, fs[0].name, fs[0].value)),
                        s, p + |EncodeField(fs[0])| + 1)
    ensures SpellsAt(s, p + |EncodeField(fs[0])|, Encode(fs[1..]) + "\r\n")
    ensures r1 == r2
  {
    var f := fs[0];
    var q := p + |EncodeField(f)|;
    FirstFieldLayout(fs, s, p);
    FieldRun(f, s, p, hs, r1, HRun(Scan(FieldCrlf, f.name, f.value, hs), s, q));
    NextFieldRun(f, fs[1], s, q, hs);
  }

  /** A run of encoded fields and the empty line: each field is inserted
      once, in order, and the block completes just after the final LF. */
  lemma {:induction false} FieldsRun(fs: seq<Field>, s: string, p: nat, hs: HeaderMap, r: (Scan, nat))
    requires fs != [] && AllWellFormed(fs)
    requires SpellsAt(s, p, Encode(fs) + "\r\n")
    requires p + 1 <= |s| && r == HRun(Scan(Name, fs[0].name[..1], "", hs), s, p + 1)
    decreases |fs|, 1
    ensures r == (Scan(Complete, "", "", InsertAll(hs, fs)), p + |Encode(fs)| + 2)
  {
    if |fs| == 1 {
      assert WellFormedField(fs[0]);
      OnlyFieldRun(fs, s, p, hs, r);
      assert InsertAll(hs, fs) == InsertAll(Insert(hs, fs[0].name, fs[0].value), []);
    } else {
      MoreFieldsRun(fs, s, p, hs, r);
    }
  }

  lemma {:induction false} MoreFieldsRun(fs: seq<Field>, s: string, p: nat, hs: HeaderMap, r: (Scan, nat))
    requires |fs| >= 2 && AllWellFormed(fs)
    requires SpellsAt(s, p, Encode(fs) + "\r\n")
    requires p + 1 <= |s| && r == HRun(Scan(Name, fs[0].name[..1], "", hs), s, p + 1)
    decreases |fs|, 0
    ensures r == (Scan(Complete, "", "", InsertAll(hs, fs)), p + |Encode(fs)| + 2)
  {
    var h1 := Insert(hs, fs[0].name, fs[0].value);
    var q := p + |EncodeField(fs[0])|;
    var tail := fs[1..];
    assert InsertAll(hs, fs) == InsertAll(h1, tail);
    EncodeSplit(fs);
    assert tail[0] == fs[1];
    assert WellFormedField(fs[0]) && WellFormedField(fs[1]);
    FirstFieldLayout(fs, s, p);
    var r2 := HRun(Scan(Name, tail[0].name[..1], "", h1), s, q + 1);
    FirstFieldRun(fs, s, p, hs, r, r2);
    FieldsRun(tail, s, q, h1, r2);
  }

  /** Round trip: the block `encode_to_data` writes for a list of
      well-formed fields parses back to exactly those insertions, and the
      offset ends just after the empty line. */
  lemma ParseEncodedFields(fs: seq<Field>, rest: string, h: HeaderMap)
    requires AllWellFormed(fs)
    ensures ParseHeadersSpec(Encode(fs) + "\r\n" + rest, h)
         == (ReadOneHeader, |Encode(fs)| + 2, InsertAll(h, fs))
  {
    var b := Encode(fs) + "\r\n";
    BlockAtStart(b, rest);
    if fs == [] {
      assert b == "\r\n";
      EmptyBlock(b + rest, h);
    } else {
      ParseFields(fs, b + rest, h);
    }
  }

  lemma {:induction false} BlockAtStart(b: string, rest: string)
    ensures SpellsAt(b + rest, 0, b)
  {
    SpellsAtStart(b + rest);
    SpellsAtSplit(b + rest, 0, b, rest);
  }

  /** A non-empty encoded block at the start of the input is read back. */
  lemma ParseFields(fs: seq<Field>, s: string, h: HeaderMap)
    requires fs != [] && AllWellFormed(fs) && SpellsAt(s, 0, Encode(fs) + "\r\n")
    ensures ParseHeadersSpec(s, h) == (ReadOneHeader, |Encode(fs)| + 2, InsertAll(h, fs))
  {
    var f := fs[0];
    assert WellFormedField(f);
    FirstByteAt(fs, s, 0);
    FirstByteRun(f, s, h);
    FieldsRun(fs, s, 0, h, HRun(Scan(Name, fs[0].name[..1], "", h), s, 1));
    CompleteRun(s, h, InsertAll(h, fs), |Encode(fs)| + 2);
  }

  /** A block that starts with a token character enters the name state. */
  lemma FirstByteRun(f: Field, s: string, h: HeaderMap)
    requires |f.name| > 0 && IsTchar(f.name[0]) && |s| > 0 && s[0] == f.name[0]
    ensures HRun(START.(headers := h), s, 0) == HRun(Scan(Name, f.name[..1], "", h), s, 1)
  {
    Unfold(START.(headers := h), s, 0);
    assert HStep(START.(headers := h), s[0], true) == Scan(Name, f.name[..1], "", h);
  }

  /** What `parse_headers` returns once the loop completes. */
  lemma CompleteRun(s: string, h: HeaderMap, out: HeaderMap, n: nat)
    requires n <= |s| && HRun(START.(headers := h), s, 0) == (Scan(Complete, "", "", out), n)
    ensures ParseHeadersSpec(s, h) == (ReadOneHeader, n, out)
  {
  }

  /** Line folding (obs-fold): a field line, a line that starts with SP or
      HT, then the empty line. The continuation joins the value with its
      leading SP or HT kept, and one field is inserted. */
  lemma ObsFoldJoinsLines(f: Field, c: char, more: string, rest: string, h: HeaderMap)
    requires WellFormedField(f) && (c == ' ' || c == '\t')
    requires forall k :: 0 <= k < |more| ==> more[k] != '\r'
    ensures ParseHeadersSpec(EncodeField(f) + [c] + more + "\r\n\r\n" + rest, h)
         == (ReadOneHeader, |EncodeField(f)| + |more| + 5, Insert(h, f.name, f.value + [c] + more))
  {
    var b := EncodeField(f) + [c] + more + "\r\n\r\n";
    var s := b + rest;
    BlockAtStart(b, rest);
    FoldLayout(f, c, more, s);
    FoldBytes(c, more, s, |EncodeField(f)|);
    FoldedRun(f, c, more, s, h);
  }

  /** A folded field line and the empty line, given where their bytes are. */
  lemma FoldedRun(f: Field, c: char, more: string, s: string, h: HeaderMap)
    requires WellFormedField(f) && (c == ' ' || c == '\t')
    requires SpellsAt(s, 0, EncodeField(f)) && |s| > 0 && s[0] == f.name[0]
    requires FoldAt(c, more, s, |EncodeField(f)|)
    requires SpellsAt(s, |EncodeField(f)| + |more| + 3, "\r\n")
    ensures ParseHeadersSpec(s, h)
         == (ReadOneHeader, |EncodeField(f)| + |more| + 5, Insert(h, f.name, f.value + [c] + more))
  {
    var q := |EncodeField(f)|;
    var r2 := HRun(Scan(FieldCrlf, f.name, f.value, h), s, q);
    FoldTailRun(f, c, more, s, q, h, r2);
    SpellsAtBound(s, q + |more| + 3, "\r\n");
    FieldLineThen(f, s, h, Insert(h, f.name, f.value + [c] + more), q + |more| + 5);
  }

  /** A block that starts with a field line: whatever the loop does from
      the end of that line decides the result. */
  lemma FieldLineThen(f: Field, s: string, h: HeaderMap, out: HeaderMap, n: nat)
    requires WellFormedField(f) && SpellsAt(s, 0, EncodeField(f)) && |s| > 0 && s[0] == f.name[0] && n <= |s|
    requires HRun(Scan(FieldCrlf, f.name, f.value, h), s, |EncodeField(f)|) == (Scan(Complete, "", "", out), n)
    ensures ParseHeadersSpec(s, h) == (ReadOneHeader, n, out)
  {
    var r1 := HRun(Scan(Name, f.name[..1], "", h), s, 1);
    var r2 := HRun(Scan(FieldCrlf, f.name, f.value, h), s, |EncodeField(f)|);
    FirstByteRun(f, s, h);
    SpellsAtBound(s, 0, EncodeField(f));
    FieldRun(f, s, 0, h, r1, r2);
    CompleteRun(s, h, out, n);
  }

  /** From the end of a field line: the continuation line, then the empty
      line. */
  lemma FoldTailRun(f: Field, c: char, more: string, s: string, q: nat, h: HeaderMap, r: (Scan, nat))
    requires 0 < q && (c == ' ' || c == '\t') && FoldAt(c, more, s, q)
    requires SpellsAt(s, q + |more| + 3, "\r\n")
    requires r == HRun(Scan(FieldCrlf, f.name, f.value, h), s, q)
    ensures r == (Scan(Complete, "", "", Insert(h, f.name, f.value + [c] + more)), q + |more| + 5)
  {
    var v := f.value + [c] + more;
    var r3 := HRun(Scan(FieldCrlf, f.name, v, h), s, q + |more| + 3);
    LastFieldRun(Field(f.name, v), s, q + |more| + 3, h, r3);
    FoldRun(f.name, f.value, c, more, s, q, h, r, r3);
  }

  /** Where the parts of a folded field line sit. */
  lemma FoldLayout(f: Field, c: char, more: string, s: string)
    requires |f.name| > 0
    requires SpellsAt(s, 0, EncodeField(f) + [c] + more + "\r\n\r\n")
    ensures SpellsAt(s, 0, EncodeField(f)) && |s| > 0 && s[0] == f.name[0]
    ensures SpellsAt(s, |EncodeField(f)|, [c] + more + "\r\n")
    ensures SpellsAt(s, |EncodeField(f)| + |more| + 3, "\r\n")
  {
    var e := EncodeField(f);
    var t := [c] + more + "\r\n";
    assert e + [c] + more + "\r\n\r\n" == e + (t + "\r\n");
    SpellsAtSplit(s, 0, e, t + "\r\n");
    SpellsAtSplit(s, |e|, t, "\r\n");
    assert e == f.name + (": " + f.value + "\r\n");
    SpellsAtIndex(s, 0, e, 0);
  }

  /** The bytes of a continuation line at `q`: SP or HT `c`, then `more`
      (no CR), then CRLF. */
  predicate FoldAt(c: char, more: string, s: string, q: nat)
  {
    q + |more| + 3 <= |s| && s[q] == c
    && s[q + 1..q + 1 + |more|] == more
    && (forall k :: q + 1 <= k < q + 1 + |more| ==> s[k] != '\r')
    && s[q + 1 + |more|] == '\r' && s[q + 2 + |more|] == '\n'
  }

  /** A continuation line after a completed field line: its SP or HT and
      its bytes up to the CR join the value, and the line ends again. */
  lemma FoldRun(name: string, value: string, c: char, more: string, s: string, q: nat, hs: HeaderMap,
                r1: (Scan, nat), r2: (Scan, nat))
    requires 0 < q && (c == ' ' || c == '\t') && FoldAt(c, more, s, q)
    requires r1 == HRun(Scan(FieldCrlf, name, value, hs), s, q)
    requires r2 == HRun(Scan(FieldCrlf, name, value + [c] + more, hs), s, q + |more| + 3)
    ensures r1 == r2
  {
    var v := value + [c] + more;
    FoldLineEnd(c, more, s, q);
    LineEndRun(name, v, hs, s, q + 1 + |more|, q + |more| + 3, HRun(Scan(Value, name, v, hs), s, q + 1 + |more|), r2);
    assert (value + [c]) + s[q + 1..q + 1 + |more|] == v;
    RunValueChars(name, value + [c], hs, s, q + 1, q + 1 + |more|);
    Step(Scan(FieldCrlf, name, value, hs), Scan(Value, name, value + [c], hs), s, q);
  }

  /** Where a continuation line ends, in the form `LineEndRun` takes it. */
  lemma FoldLineEnd(c: char, more: string, s: string, q: nat)
    requires FoldAt(c, more, s, q)
    ensures q + |more| + 3 == (q + 1 + |more|) + 2 <= |s|
    ensures s[q + 1 + |more|] == '\r' && s[(q + 1 + |more|) + 1] == '\n'
  {
  }

  /** The CRLF that ends a field line. */
  lemma LineEndRun(name: string, value: string, hs: HeaderMap, s: string, i: nat, j: nat,
                   r1: (Scan, nat), r2: (Scan, nat))
    requires 0 < i && j == i + 2 && j <= |s| && s[i] == '\r' && s[i + 1] == '\n'
    requires r1 == HRun(Scan(Value, name, value, hs), s, i)
    requires r2 == HRun(Scan(FieldCrlf, name, value, hs), s, j)
    ensures r1 == r2
  {
    var sr := Scan(FieldCr, name, value, hs);
    Step(Scan(Value, name, value, hs), sr, s, i);
    Step(sr, Scan(FieldCrlf, name, value, hs), s, i + 1);
  }

  /** The bytes of a continuation line. */
  lemma FoldBytes(c: char, more: string, s: string, q: nat)
    requires forall k :: 0 <= k < |more| ==> more[k] != '\r'
    requires SpellsAt(s, q, [c] + more + "\r\n")
    ensures FoldAt(c, more, s, q)
  {
    var m := |more|;
    SpellsAtSplit(s, q, [c] + more, "\r\n");
    SpellsAtSplit(s, q, [c], more);
    SpellsAtIndex(s, q, [c], 0);
    SpellsAtSlice(s, q + 1, more);
    forall k | q + 1 <= k < q + 1 + m ensures s[k] != '\r' {
      SpellsAtIndex(s, q + 1, more, k - (q + 1));
    }
    SpellsAtIndex(s, q + 1 + m, "\r\n", 0);
    SpellsAtIndex(s, q + 1 + m, "\r\n", 1);
  }

  /** Blanks after the colon are skipped: a field line `name:` followed by
      any run of SP and HT, then a value that does not start with one, then
      the empty line, inserts exactly that value. */
  lemma LeadingBlanksSkipped(name: string, w: string, v: string, rest: string, h: HeaderMap)
    requires |name| > 0 && (forall k :: 0 <= k < |name| ==> IsTchar(name[k]))
    requires forall k :: 0 <= k < |w| ==> w[k] == ' ' || w[k] == '\t'
    requires forall k :: 0 <= k < |v| ==> v[k] != '\r'
    requires |v| > 0 ==> v[0] != ' ' && v[0] != '\t'
    ensures ParseHeadersSpec(name + ":" + w + v + "\r\n\r\n" + rest, h)
         == (ReadOneHeader, |name| + |w| + |v| + 5, Insert(h, name, v))
  {
    var b := name + ":" + w + v + "\r\n\r\n";
    BlockAtStart(b, rest);
    BlanksAt(name, w, v, b + rest, h);
  }

  /** The same, for a block spelled at the start of `s`. */
  lemma BlanksAt(name: string, w: string, v: string, s: string, h: HeaderMap)
    requires WellFormedField(Field(name, v))
    requires forall k :: 0 <= k < |w| ==> w[k] == ' ' || w[k] == '\t'
    requires SpellsAt(s, 0, name + ":" + w + v + "\r\n\r\n")
    ensures ParseHeadersSpec(s, h) == (ReadOneHeader, |name| + |w| + |v| + 5, Insert(h, name, v))
  {
    BlanksLayout(name, w, v, s);
    BlanksBlock(name, v, |w|, s, h);
  }

  /** A block of one field line with `m` blanks after its colon, given
      where its bytes are. */
  lemma BlanksBlock(name: string, v: string, m: nat, s: string, h: HeaderMap)
    requires WellFormedField(Field(name, v)) && SpellsAt(s, 0, name) && |name| < |s| && s[|name|] == ':'
    requires Blanks(s, |name| + 1, |name| + 1 + m)
    requires SpellsAt(s, |name| + 1 + m, v + "\r\n")
    requires SpellsAt(s, |name| + 1 + m + |v| + 2, "\r\n")
    ensures ParseHeadersSpec(s, h) == (ReadOneHeader, |name| + m + |v| + 5, Insert(h, name, v))
  {
    var f := Field(name, v);
    var q := |f.name| + 1 + m + |f.value| + 2;
    SpellsAtBound(s, q, "\r\n");
    var r0 := HRun(START.(headers := h), s, 0);
    BlanksRun(f, m, s, h, r0);
    assert q + 2 <= |s|;
    assert r0 == (Scan(Complete, "", "", Insert(h, f.name, f.value)), q + 2);
    CompleteRun(s, h, Insert(h, f.name, f.value), q + 2);
    assert ParseHeadersSpec(s, h) == (ReadOneHeader, q + 2, Insert(h, f.name, f.value));
    assert q + 2 == |name| + m + |v| + 5;
  }

  /** The loop over that block, up to its final LF. */
  lemma BlanksRun(f: Field, m: nat, s: string, h: HeaderMap, r0: (Scan, nat))
    requires WellFormedField(f) && SpellsAt(s, 0, f.name) && |f.name| < |s| && s[|f.name|] == ':'
    requires Blanks(s, |f.name| + 1, |f.name| + 1 + m)
    requires SpellsAt(s, |f.name| + 1 + m, f.value + "\r\n")
    requires SpellsAt(s, |f.name| + 1 + m + |f.value| + 2, "\r\n")
    requires r0 == HRun(START.(headers := h), s, 0)
    ensures r0 == (Scan(Complete, "", "", Insert(h, f.name, f.value)), |f.name| + 1 + m + |f.value| + 4)
  {
    var q := |f.name| + 1 + m + |f.value| + 2;
    SpellsAtBound(s, q, "\r\n");
    var r3 := HRun(Scan(FieldCrlf, f.name, f.value, h), s, q);
    BlanksLineRun(f, m, s, h, r0, r3);
    LastFieldRun(f, s, q, h, r3);
  }

  /** Where the parts of a field line with blanks after its colon sit. */
  lemma BlanksLayout(name: string, w: string, v: string, s: string)
    requires forall k :: 0 <= k < |w| ==> w[k] == ' ' || w[k] == '\t'
    requires SpellsAt(s, 0, name + ":" + w + v + "\r\n\r\n")
    ensures SpellsAt(s, 0, name) && |name| < |s| && s[|name|] == ':'
    ensures Blanks(s, |name| + 1, |name| + 1 + |w|)
    ensures SpellsAt(s, |name| + 1 + |w|, v + "\r\n")
    ensures SpellsAt(s, |name| + 1 + |w| + |v| + 2, "\r\n")
  {
    var j := |name| + 1 + |w|;
    SpellsAtSplit(s, 0, name + ":" + w + v, "\r\n\r\n");
    SpellsAtSplit(s, 0, name + ":" + w, v);
    SpellsAtSplit(s, 0, name + ":", w);
    SpellsAtSplit(s, 0, name, ":");
    SpellsAtIndex(s, |name|, ":", 0);
    BlankBytes(w, s, |name| + 1);
    assert "\r\n\r\n" == "\r\n" + "\r\n";
    SpellsAtSplit(s, j + |v|, "\r\n", "\r\n");
    SpellsAtJoin(s, j, v, "\r\n");
  }

  lemma {:induction false} SpellsAtJoin(s: string, p: nat, a: string, b: string)
    requires SpellsAt(s, p, a) && SpellsAt(s, p + |a|, b)
    decreases |a|
    ensures SpellsAt(s, p, a + b)
  {
    if a == [] {
      assert a + b == b;
    } else {
      assert (a + b)[1..] == a[1..] + b;
      SpellsAtJoin(s, p + 1, a[1..], b);
    }
  }

  /** Bytes `i` up to `j` of `s` are SP or HT. */
  predicate Blanks(s: string, i: nat, j: nat)
  {
    i <= j <= |s| && forall k :: i <= k < j ==> s[k] == ' ' || s[k] == '\t'
  }

  lemma BlankBytes(w: string, s: string, p: nat)
    requires (forall k :: 0 <= k < |w| ==> w[k] == ' ' || w[k] == '\t') && SpellsAt(s, p, w)
    ensures Blanks(s, p, p + |w|)
  {
    forall k | p <= k < p + |w| ensures s[k] == ' ' || s[k] == '\t' {
      SpellsAtIndex(s, p, w, k - p);
    }
  }

  /** The field line itself: the name, the colon, `m` blanks and the value
      are read, and the loop stands just after the line's CRLF. */
  lemma BlanksLineRun(f: Field, m: nat, s: string, h: HeaderMap, r0: (Scan, nat), r3: (Scan, nat))
    requires WellFormedField(f) && SpellsAt(s, 0, f.name) && |f.name| < |s| && s[|f.name|] == ':'
    requires Blanks(s, |f.name| + 1, |f.name| + 1 + m)
    requires SpellsAt(s, |f.name| + 1 + m, f.value + "\r\n")
    requires r0 == HRun(START.(headers := h), s, 0)
    requires r3 == HRun(Scan(FieldCrlf, f.name, f.value, h), s, |f.name| + 1 + m + |f.value| + 2)
    ensures r0 == r3
  {
    var r1 := HRun(Scan(Name, f.name, "", h), s, |f.name|);
    BlankNameRun(f, s, h, r0, r1);
    ColonValueRun(f, m, s, h, r1, r3);
  }

  /** From the colon of a field line to just after its CRLF. */
  lemma ColonValueRun(f: Field, m: nat, s: string, h: HeaderMap, r1: (Scan, nat), r3: (Scan, nat))
    requires WellFormedField(f) && |f.name| < |s| && s[|f.name|] == ':'
    requires Blanks(s, |f.name| + 1, |f.name| + 1 + m)
    requires SpellsAt(s, |f.name| + 1 + m, f.value + "\r\n")
    requires r1 == HRun(Scan(Name, f.name, "", h), s, |f.name|)
    requires r3 == HRun(Scan(FieldCrlf, f.name, f.value, h), s, |f.name| + 1 + m + |f.value| + 2)
    ensures r1 == r3
  {
    var j := |f.name| + 1 + m;
    var r2 := HRun(Scan(ValueLeftOws, f.name, "", h), s, j);
    ColonBlanksRun(f.name, m, s, h, r1, r2);
    ValueLineRun(f, s, j, h, r2, r3);
  }

  /** A value and its CRLF, in the form `ColonValueRun` takes it. */
  lemma ValueLineRun(f: Field, s: string, j: nat, h: HeaderMap, r2: (Scan, nat), r3: (Scan, nat))
    requires WellFormedField(f) && SpellsAt(s, j, f.value + "\r\n") && j > 0
    requires r2 == HRun(Scan(ValueLeftOws, f.name, "", h), s, j)
    requires r3 == HRun(Scan(FieldCrlf, f.name, f.value, h), s, j + |f.value| + 2)
    ensures r2 == r3
  {
    FieldValueRun(f, s, j, h);
  }

  /** The colon after a name, then `m` blanks. */
  lemma ColonBlanksRun(name: string, m: nat, s: string, h: HeaderMap, r1: (Scan, nat), r2: (Scan, nat))
    requires 0 < |name| < |s| && s[|name|] == ':' && Blanks(s, |name| + 1, |name| + 1 + m)
    requires r1 == HRun(Scan(Name, name, "", h), s, |name|)
    requires r2 == HRun(Scan(ValueLeftOws, name, "", h), s, |name| + 1 + m)
    ensures r1 == r2
  {
    var n := |name|;
    Step(Scan(Name, name, "", h), Scan(ValueLeftOws, name, "", h), s, n);
    RunBlanks(name, h, s, n + 1, n + 1 + m);
  }

  /** The name of a field line, from the start of the block to its colon. */
  lemma BlankNameRun(f: Field, s: string, h: HeaderMap, r0: (Scan, nat), r1: (Scan, nat))
    requires WellFormedField(f) && SpellsAt(s, 0, f.name) && |f.name| < |s|
    requires r0 == HRun(START.(headers := h), s, 0)
    requires r1 == HRun(Scan(Name, f.name, "", h), s, |f.name|)
    ensures r0 == r1
  {
    var n := |f.name|;
    forall k | 1 <= k < n ensures IsTchar(s[k]) {
      SpellsAtIndex(s, 0, f.name, k);
    }
    SpellsAtIndex(s, 0, f.name, 0);
    SpellsAtSlice(s, 0, f.name);
    assert s[1..n] == s[0..n][1..];
    assert [f.name[0]] + s[1..n] == f.name;
    FirstByteRun(f, s, h);
    RunNameChars(f.name[..1], h, s, 1, n);
  }

  /** The loop in the state before a value skips SP and HT. */
  lemma {:induction false} RunBlanks(name: string, hs: HeaderMap, s: string, i: nat, j: nat)
    requires Blanks(s, i, j)
    decreases j - i
    ensures HRun(Scan(ValueLeftOws, name, "", hs), s, i) == HRun(Scan(ValueLeftOws, name, "", hs), s, j)
  {
    if i < j {
      Unfold(Scan(ValueLeftOws, name, "", hs), s, i);
      RunBlanks(name, hs, s, i + 1, j);
    }
  }

  /** Parsing the encoding of a sorted map into an empty map gives back
      that map. */
  lemma ParseEncodedMap(h: HeaderMap, rest: string)
    requires Sorted(h) && AllWellFormed(h)
    ensures ParseHeadersSpec(Encode(h) + "\r\n" + rest, []) == (ReadOneHeader, |Encode(h)| + 2, h)
  {
    assert [] + h == h;
    InsertAllSorted([], h);
    ParseEncodedFields(h, rest, []);
  }
}
