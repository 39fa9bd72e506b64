/** The chunked transfer-coding validator (section 4.1 of RFC 7230). It
    checks the framing of a chunked body byte by byte and keeps its
    progress in three fields, so a body may arrive in any number of
    pieces. It does not decode the body. */
module ChunkParsing {
  import opened Text
  import opened HttpConst

  type Uint32 = n: nat | n < 0x1_0000_0000

  datatype ChunkPhase =
    | SizeStart | Size | Ext | SizeCr | Data | DataCr | Last | LastCr | Complete | Failed

  /** The three fields of the validator, as a value. */
  datatype Checker = Checker(phase: ChunkPhase, size: Uint32, hasRead: Uint32)

  const INITIAL: Checker := Checker(SizeStart, 0, 0)

  /** `std::isxdigit` in the C locale. */
  predicate IsHexDigit(c: char)
  {
    '0' <= c <= '9' || 'a' <= c <= 'f' || 'A' <= c <= 'F'
  }

  /** The digit value as the source computes it: letters through
      `toupper(c) - 'A' + 10`, digits through `c - '0'`. */
  function HexValue(c: char): (v: nat)
    requires IsHexDigit(c)
    ensures v < 16
  {
    if c >= 'A' then (if 'a' <= c then c as int - 32 else c as int) - 'A' as int + 10
    else c as int - '0' as int
  }

  function Fail(c: Checker): Checker { c.(phase := Failed) }

  /** One iteration of the loop in `check`. A byte the current phase does
      not accept yields the failed phase. */
  function Step(c: Checker, b: char): (r: Checker)
  {
    match c.phase
    case SizeStart =>
      if IsHexDigit(b) then Checker(Size, HexValue(b), 0) else Fail(c)
    case Size =>
      if IsHexDigit(b) then c.(size := (c.size * 16 + HexValue(b)) % UINT32_LIMIT)
      else if b == ';' || b == ' ' then c.(phase := Ext)
      else if b == '\r' then c.(phase := SizeCr)
      else Fail(c)
    case Ext =>
      // chunk extensions are ignored verbatim up to CR
      if b == '\r' then c.(phase := SizeCr) else c
    case SizeCr =>
      if b == '\n' then c.(phase := if c.size == 0 then Last else Data) else Fail(c)
    case Data =>
      if c.hasRead < c.size then c.(hasRead := c.hasRead + 1)
      else if b == '\r' then c.(phase := DataCr)
      else Fail(c)
    case DataCr =>
      if b == '\n' then c.(phase := SizeStart) else Fail(c)
    case Last =>
      if b == '\r' then c.(phase := LastCr) else Fail(c)
    case LastCr =>
      if b == '\n' then c.(phase := Complete) else Fail(c)
    case Complete => Fail(c)
    case Failed => Fail(c)
  }

  /** The outcome of one `check` call: whether every byte was accepted,
      how many bytes were consumed, and the validator afterwards. */
  datatype Outcome = Outcome(ok: bool, consumed: nat, after: Checker)

  /** Folds `Step` over `s[i..]`, stopping at the first rejected byte. */
  function RunFrom(c: Checker, s: seq<char>, i: nat): Outcome
    requires i <= |s|
    decreases |s| - i
  {
    if i == |s| then Outcome(true, i, c)
    else if Step(c, s[i]).phase == Failed then Outcome(false, i, Step(c, s[i]))
    else RunFrom(Step(c, s[i]), s, i + 1)
  }

  function Run(c: Checker, s: seq<char>): Outcome { RunFrom(c, s, 0) }

  lemma {:induction false} RunFromShape(c: Checker, s: seq<char>, i: nat)
    requires i <= |s|
    requires c.phase != Failed
    decreases |s| - i
    ensures var o := RunFrom(c, s, i);
      i <= o.consumed <= |s|
      && (o.ok <==> o.after.phase != Failed)
      && (o.ok ==> o.consumed == |s|)
      && (!o.ok ==> o.consumed < |s|)
  {
    if i < |s| && Step(c, s[i]).phase != Failed {
      RunFromShape(Step(c, s[i]), s, i + 1);
    }
  }

  /** With no violation `check` consumes every byte; on a violation it
      stops in the failed phase and reports the offset of the offending
      byte: the bytes before it were accepted, and that byte is rejected
      from the state they led to. */
  lemma {:induction false} RunReportsOffendingByte(c: Checker, s: seq<char>)
    requires c.phase != Failed
    ensures Run(c, s).ok <==> Run(c, s).after.phase != Failed
    ensures Run(c, s).ok ==> Run(c, s).consumed == |s|
    ensures !Run(c, s).ok ==>
      var k := Run(c, s).consumed;
      k < |s| && Run(c, s[..k]).ok
      && Step(Run(c, s[..k]).after, s[k]) == Run(c, s).after
      && Run(c, s).after.phase == Failed
  {
    RunFromShape(c, s, 0);
    if !Run(c, s).ok {
      var k := Run(c, s).consumed;
      PrefixRun(c, s, 0, k);
    }
  }

  /** Running a prefix that stops before the first rejected byte agrees
      with the run over the whole sequence up to that point. */
  lemma {:induction false} PrefixRun(c: Checker, s: seq<char>, i: nat, k: nat)
    requires i <= k < |s|
    requires c.phase != Failed
    requires !RunFrom(c, s, i).ok && RunFrom(c, s, i).consumed == k
    decreases k - i
    ensures RunFrom(c, s[..k], i).ok
    ensures Step(RunFrom(c, s[..k], i).after, s[k]) == RunFrom(c, s, i).after
  {
    if i < k {
      assert Step(c, s[i]).phase != Failed;
      assert s[..k][i] == s[i];
      PrefixRun(Step(c, s[i]), s, i + 1, k);
    } else if Step(c, s[k]).phase != Failed {
      RunFromShape(Step(c, s[k]), s, k + 1);
    }
  }

  lemma {:induction false} RunFromAppend(c: Checker, a: seq<char>, b: seq<char>, i: nat)
    requires i <= |a|
    requires RunFrom(c, a, i).ok
    decreases |a| - i
    ensures var mid := RunFrom(c, a, i).after;
      var whole := RunFrom(c, a + b, i);
      var rest := Run(mid, b);
      whole == Outcome(rest.ok, |a| + rest.consumed, rest.after)
  {
    if i == |a| {
      RunFromShift(c, a, b, 0);
    } else {
      assert (a + b)[i] == a[i];
      RunFromAppend(Step(c, a[i]), a, b, i + 1);
    }
  }

  lemma {:induction false} RunFromShift(c: Checker, a: seq<char>, b: seq<char>, j: nat)
    requires j <= |b|
    decreases |b| - j
    ensures var o := RunFrom(c, b, j);
      RunFrom(c, a + b, |a| + j) == Outcome(o.ok, |a| + o.consumed, o.after)
  {
    if j < |b| {
      assert (a + b)[|a| + j] == b[j];
      RunFromShift(Step(c, b[j]), a, b, j + 1);
    }
  }

  /** `check` is incremental: checking `a + b` in one call is the same as
      checking `a` and then `b`, whenever the first call succeeds. */
  lemma CheckSplits(c: Checker, a: seq<char>, b: seq<char>)
    requires Run(c, a).ok
    ensures Run(c, a + b) ==
      Outcome(Run(Run(c, a).after, b).ok, |a| + Run(Run(c, a).after, b).consumed,
              Run(Run(c, a).after, b).after)
  {
    RunFromAppend(c, a, b, 0);
  }

  /** Once the terminal chunk is complete, any further byte is a
      violation at offset 0: bytes pipelined after a chunked body fail. */
  lemma CompleteRejectsMore(c: Checker, s: seq<char>)
    requires c.phase == Complete && |s| > 0
    ensures Run(c, s) == Outcome(false, 0, c.(phase := Failed))
  {
  }

  /** In the size line the size accumulates as `size * 16 + digit` in
      32-bit arithmetic, for upper- and lower-case hex digits alike. */
  lemma SizeAccumulates(c: Checker, b: char)
    requires c.phase == Size && IsHexDigit(b)
    ensures Step(c, b).size == (c.size * 16 + HexValue(b)) % UINT32_LIMIT
    ensures Step(c, b).phase == Size
    ensures HexValue(b) == HexValue(LowerChar(b))
  {
  }

  /** After `;` or a space in the size line, every byte up to CR is
      ignored. */
  lemma {:induction false} ExtensionIgnored(c: Checker, s: seq<char>)
    requires c.phase == Ext
    requires forall i :: 0 <= i < |s| ==> s[i] != '\r'
    ensures Run(c, s) == Outcome(true, |s|, c)
  {
    if |s| > 0 {
      ExtensionShift(c, s, 0);
    }
  }

  lemma {:induction false} ExtensionShift(c: Checker, s: seq<char>, i: nat)
    requires c.phase == Ext && i <= |s|
    requires forall k :: 0 <= k < |s| ==> s[k] != '\r'
    decreases |s| - i
    ensures RunFrom(c, s, i) == Outcome(true, |s|, c)
  {
    if i < |s| {
      ExtensionShift(c, s, i + 1);
    }
  }

  // ---------------------------------------------------------------
  // A reference encoder: a well-formed chunked body is accepted whole.

  function HexDigitChar(d: nat): (c: char)
    requires d < 16
    ensures IsHexDigit(c) && HexValue(c) == d
  {
    if d < 10 then ('0' as int + d) as char else ('a' as int + d - 10) as char
  }

  /** Lower-case hexadecimal text of `n`. */
  function Hex(n: nat): (s: string)
    ensures |s| > 0
  {
    if n < 16 then [HexDigitChar(n)] else Hex(n / 16) + [HexDigitChar(n % 16)]
  }

  /** The chunked coding of a body given as a list of non-empty chunks:
      each chunk as `hex-size CRLF data CRLF`, then `0 CRLF CRLF`. */
  function EncodeChunks(chunks: seq<seq<char>>): string
  {
    if chunks == [] then "0\r\n\r\n"
    else Hex(|chunks[0]|) + "\r\n" + chunks[0] + "\r\n" + EncodeChunks(chunks[1..])
  }

  predicate WellSized(chunks: seq<seq<char>>)
  {
    forall i :: 0 <= i < |chunks| ==> 0 < |chunks[i]| < UINT32_LIMIT
  }

  lemma {:induction false} RunHexAt(n: nat, c: Checker)
    requires 0 <= n < UINT32_LIMIT && (c.phase == SizeStart)
    ensures Run(c, Hex(n)) == Outcome(true, |Hex(n)|, Checker(Size, n, 0))
  {
    if n >= 16 {
      RunHexAt(n / 16, c);
      var d := [HexDigitChar(n % 16)];
      CheckSplits(c, Hex(n / 16), d);
      assert RunFrom(Checker(Size, n, 0), d, 1) == Outcome(true, 1, Checker(Size, n, 0));
    } else {
      var s := [HexDigitChar(n)];
      assert Hex(n) == s;
      assert RunFrom(Checker(Size, n, 0), s, 1) == Outcome(true, 1, Checker(Size, n, 0));
    }
  }

  lemma {:induction false} RunData(c: Checker, d: seq<char>, i: nat)
    requires c.phase == Data && i <= |d| && c.hasRead as int + |d| - i <= c.size
    decreases |d| - i
    ensures RunFrom(c, d, i) == Outcome(true, |d|, c.(hasRead := c.hasRead + |d| - i))
  {
    if i < |d| {
      RunData(c.(hasRead := c.hasRead + 1), d, i + 1);
    }
  }

  /** A well-formed chunked body, fed from any chunk boundary state, is
      accepted in full and leaves the validator complete with the
      terminal chunk's size 0. */
  lemma {:induction false} EncodedChunksComplete(c: Checker, chunks: seq<seq<char>>)
    requires c.phase == SizeStart && WellSized(chunks)
    decreases |chunks|
    ensures Run(c, EncodeChunks(chunks)) ==
      Outcome(true, |EncodeChunks(chunks)|, Checker(Complete, 0, 0))
  {
    if chunks == [] {
      var s := "0\r\n\r\n";
      assert EncodeChunks(chunks) == s;
      var done := Checker(Complete, 0, 0);
      assert RunFrom(done, s, 5) == Outcome(true, 5, done);
      assert RunFrom(Checker(LastCr, 0, 0), s, 4) == Outcome(true, 5, done);
      assert RunFrom(Checker(Last, 0, 0), s, 3) == Outcome(true, 5, done);
      assert RunFrom(Checker(SizeCr, 0, 0), s, 2) == Outcome(true, 5, done);
      assert RunFrom(Checker(Size, 0, 0), s, 1) == Outcome(true, 5, done);
    } else {
      var d := chunks[0];
      var n := |d|;
      var hex := Hex(n);
      var rest := EncodeChunks(chunks[1..]);
      RunHexAt(n, c);
      var afterHex := Checker(Size, n, 0);
      CheckSplits(c, hex, "\r\n");
      var atData := Checker(Data, n, 0);
      assert Run(afterHex, "\r\n").after == atData;
      RunData(atData, d, 0);
      CheckSplits(c, hex + "\r\n", d);
      var full := Checker(Data, n, n);
      assert Run(full, "\r\n").after == Checker(SizeStart, n, n);
      CheckSplits(c, hex + "\r\n" + d, "\r\n");
      assert WellSized(chunks[1..]);
      EncodedChunksComplete(Checker(SizeStart, n, n), chunks[1..]);
      CheckSplits(c, hex + "\r\n" + d + "\r\n", rest);
      assert EncodeChunks(chunks) == hex + "\r\n" + d + "\r\n" + rest;
    }
  }

  /** The example of section 4.1 of RFC 7230: "Wiki" in one chunk is
      accepted whole (14 bytes) and ends complete with `chunk_size() == 0`
      after the declared sizes 4 and 0. */
  lemma WikiExample()
    ensures Run(INITIAL, "4\r\nWiki\r\n0\r\n\r\n") == Outcome(true, 14, Checker(Complete, 0, 0))
    ensures Run(INITIAL, "4\r\nW").after.size == 4
  {
    assert Hex(4) == "4";
    assert EncodeChunks(["Wiki"]) == "4\r\nWiki\r\n0\r\n\r\n";
    EncodedChunksComplete(INITIAL, ["Wiki"]);
  }

  // ---------------------------------------------------------------
  // `http_chunk_parser`, the object.

  class ChunkParser {
    var state: ChunkPhase
    var currentChunkSize: Uint32
    var currentChunkSizeHasRead: Uint32

    function Model(): Checker
      reads this
    {
      Checker(state, currentChunkSize, currentChunkSizeHasRead)
    }

    constructor ()
      ensures Model() == INITIAL
    {
      state := SizeStart;
      currentChunkSize := 0;
      currentChunkSizeHasRead := 0;
    }

    function IsComplete(): (r: bool)
      reads this
      ensures r <==> Model().phase == Complete
    {
      state == Complete
    }

    function IsFail(): (r: bool)
      reads this
      ensures r <==> Model().phase == Failed
    {
      state == Failed
    }

    /** The size declared by the most recent size line. */
    function ChunkSize(): (r: Uint32)
      reads this
      ensures r == Model().size
    {
      currentChunkSize
    }

    /** `reset`: back to the constructor's state. */
    method Reset()
      modifies this
      ensures Model() == INITIAL
    {
      state := SizeStart;
      currentChunkSize := 0;
      currentChunkSizeHasRead := 0;
    }

    /** `check(begin, end)` over `a[lo..hi]`. */
    method Check(a: array<Byte>, lo: nat, hi: nat) returns (ok: bool, consumed: nat)
      requires lo <= hi <= a.Length
      requires !IsFail()
      modifies this
      ensures Outcome(ok, consumed, Model()) == Run(old(Model()), a[lo..hi])
    {
      ghost var s := a[lo..hi];
      var iter := lo;
      while iter < hi
        invariant lo <= iter <= hi
        invariant state != Failed
        invariant RunFrom(Model(), s, iter - lo) == Run(old(Model()), s)
      {
        var ch := a[iter];
        assert ch == s[iter - lo];
        var accepted := true;
        match state {
          case SizeStart =>
            if IsHexDigit(ch) {
              currentChunkSize := HexValue(ch);
              currentChunkSizeHasRead := 0;
              state := Size;
            } else {
              accepted := false;
            }
          case Size =>
            if IsHexDigit(ch) {
              currentChunkSize := (currentChunkSize * 16 + HexValue(ch)) % UINT32_LIMIT;
            } else if ch == ';' || ch == ' ' {
              state := Ext;
            } else if ch == '\r' {
              state := SizeCr;
            } else {
              accepted := false;
            }
          case Ext =>
            if ch == '\r' {
              state := SizeCr;
            }
          case SizeCr =>
            if ch == '\n' {
              state := if currentChunkSize == 0 then Last else Data;
            } else {
              accepted := false;
            }
          case Data =>
            if currentChunkSizeHasRead < currentChunkSize {
              currentChunkSizeHasRead := currentChunkSizeHasRead + 1;
            } else if ch == '\r' {
              state := DataCr;
            } else {
              accepted := false;
            }
          case DataCr =>
            if ch == '\n' {
              state := SizeStart;
            } else {
              accepted := false;
            }
          case Last =>
            if ch == '\r' {
              state := LastCr;
            } else {
              accepted := false;
            }
          case LastCr =>
            if ch == '\n' {
              state := Complete;
            } else {
              accepted := false;
            }
          case Complete =>
            accepted := false;
          case Failed =>
            accepted := false;
        }
        if !accepted {
          state := Failed;
          return false, iter - lo;
        }
        iter := iter + 1;
      }
      return true, iter - lo;
    }
  }
}
