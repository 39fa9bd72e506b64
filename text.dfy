/** Character-level helpers shared by the parsers: bytes, ASCII case
    folding, the strict unsigned-integer parse and decimal printing. */
module Text {

  /** One octet of the input stream. The parser's buffers hold `char`
      values read from a socket, so every element is below 256. */
  type Byte = c: char | c as int < 256 witness '\0'

  datatype Option<T> = None | Some(value: T)

  predicate IsDigit(c: char) { '0' <= c <= '9' }

  function DigitValue(c: char): (d: nat)
    requires IsDigit(c)
    ensures d < 10
  {
    c as int - '0' as int
  }

  function DigitChar(d: nat): (c: char)
    requires d < 10
    ensures IsDigit(c) && DigitValue(c) == d
  {
    ('0' as int + d) as char
  }

  predicate AllDigits(s: string) { forall i :: 0 <= i < |s| ==> IsDigit(s[i]) }

  /** `std::tolower` in the C locale: only 'A'..'Z' change. */
  function LowerChar(c: char): (r: char)
    ensures 'A' <= c <= 'Z' ==> r as int == c as int + 32
    ensures !('A' <= c <= 'Z') ==> r == c
  {
    if 'A' <= c <= 'Z' then (c as int + 32) as char else c
  }

  function Lower(s: string): (r: string)
    ensures |r| == |s|
    ensures forall i :: 0 <= i < |s| ==> r[i] == LowerChar(s[i])
  {
    if s == [] then [] else [LowerChar(s[0])] + Lower(s[1..])
  }

  /** Lower-casing twice is lower-casing once, and a lowered string has
      no upper-case letters left. */
  lemma LowerIdempotent(s: string)
    ensures Lower(Lower(s)) == Lower(s)
    ensures forall i :: 0 <= i < |s| ==> !('A' <= Lower(s)[i] <= 'Z')
  {
  }

  /** `string_to_lower_case`: lowers the string in place. */
  method StringToLowerCase(str: array<char>)
    modifies str
    ensures str[..] == Lower(old(str[..]))
  {
    var i := 0;
    while i < str.Length
      invariant 0 <= i <= str.Length
      invariant forall k :: 0 <= k < i ==> str[k] == LowerChar(old(str[k]))
      invariant forall k :: i <= k < str.Length ==> str[k] == old(str[k])
    {
      str[i] := LowerChar(str[i]);
      i := i + 1;
    }
  }

  /** `remove_trail_blank` as written. The loop meant to walk back over
      trailing blanks steps the index forward instead: after one blank it
      reads the terminating NUL of the string, stops, and `substr` clamps
      the length, so the whole input comes back untouched. */
  method RemoveTrailBlank(input: string) returns (r: string)
    ensures r == input
  {
    var idx := |input|;
    while idx > 0
      invariant |input| <= idx <= |input| + 1 || idx == 0
      invariant idx == 0 ==> |input| == 0
      decreases |input| + 2 - idx
    {
      // std::string::operator[] at size() yields the NUL terminator
      var c := if idx - 1 < |input| then input[idx - 1] else '\0';
      if c == ' ' || c == '\t' {
        idx := idx + 1;
      } else {
        break;
      }
    }
    if idx == 0 {
      r := "";
    } else {
      r := input[..if idx < |input| then idx else |input|];
    }
  }

  /** The value of a string of decimal digits, most significant first. */
  function DecimalValue(s: string): nat
    requires AllDigits(s)
  {
    if s == [] then 0 else DecimalValue(s[..|s| - 1]) * 10 + DigitValue(s[|s| - 1])
  }

  /** `try_parse_unsigned_int<T>`, under one strict contract: the whole
      text is a non-empty run of decimal digits whose value fits below
      `bound` (2^32 for `uint32_t`, 2^64 for `uint64_t`). */
  function ParseUnsigned(text: string, bound: nat): (r: Option<nat>)
    ensures r.Some? <==> text != [] && AllDigits(text) && DecimalValue(text) < bound
    ensures r.Some? ==> r.value < bound
  {
    if text != [] && AllDigits(text) && DecimalValue(text) < bound
    then Some(DecimalValue(text)) else None
  }

  /** `std::to_string` of a non-negative integer. */
  function NatToString(n: nat): (s: string)
    ensures s != [] && AllDigits(s)
    ensures s[0] != '0' || n == 0
  {
    if n < 10 then [DigitChar(n)] else NatToString(n / 10) + [DigitChar(n % 10)]
  }

  /** `std::to_string` / `operator<<` of a signed integer. */
  function IntToString(n: int): (s: string)
    ensures s != []
  {
    if n < 0 then "-" + NatToString(-n) else NatToString(n)
  }

  lemma {:induction false} DecimalOfNatToString(n: nat)
    ensures DecimalValue(NatToString(n)) == n
  {
    if n >= 10 {
      var s := NatToString(n);
      assert s[..|s| - 1] == NatToString(n / 10);
      DecimalOfNatToString(n / 10);
    }
  }

  /** Printing and the strict parse are inverse: the decimal text of `n`
      parses back to `n` exactly when `n` fits the bound. */
  lemma ParsePrintRoundTrip(n: nat, bound: nat)
    ensures ParseUnsigned(NatToString(n), bound) == if n < bound then Some(n) else None
  {
    DecimalOfNatToString(n);
  }

  /** Decimal printing is injective. */
  lemma NatToStringInjective(m: nat, n: nat)
    requires NatToString(m) == NatToString(n)
    ensures m == n
  {
    DecimalOfNatToString(m);
    DecimalOfNatToString(n);
  }

  /** `pat` occurs in `s` starting at offset `k`. */
  predicate MatchAt(s: string, pat: string, k: nat)
  {
    k + |pat| <= |s| && s[k..k + |pat|] == pat
  }

  /** Index of the first occurrence of `pat` in `s` at or after `from`
      (`std::string::find`). */
  function IndexOf(s: string, pat: string, from: nat): (r: Option<nat>)
    requires from <= |s|
    decreases |s| - from
    ensures r.Some? ==> from <= r.value && MatchAt(s, pat, r.value)
    ensures r.Some? ==> forall k :: from <= k < r.value ==> !MatchAt(s, pat, k)
    ensures r.None? ==> forall k :: from <= k ==> !MatchAt(s, pat, k)
  {
    if from + |pat| > |s| then None
    else if MatchAt(s, pat, from) then Some(from)
    else IndexOf(s, pat, from + 1)
  }

  predicate StartsWith(s: string, prefix: string)
  {
    |prefix| <= |s| && s[..|prefix|] == prefix
  }
}
