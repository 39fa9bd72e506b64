# A verified model of the http_server parsing engine

This project models the byte-level HTTP/1.x parsing engine of `http_server`
in Dafny and proves properties of the model. The engine has four parts and a
few helpers:

- **The chunk validator** (`http_chunk_parser`). A ten-state machine that
  checks the framing of a chunked body, as section 4.1 of RFC 7230 defines
  it. It keeps its progress in three fields, so a body may arrive in any
  number of pieces.
- **The header-block tokenizer** (`http_header_parser::parse_headers`). A
  per-byte state machine that fills a case-insensitive multimap. It uses the
  token table of section 3.2.6 of RFC 7230 and joins obs-fold continuation
  lines.
- **The start-line parsers.** The request line, with its three target forms
  (CONNECT `host:port`, absolute `scheme://host[:port]/path`, origin form),
  the `Host` re-dissection, and the status line. The `std::regex` patterns
  they use are explicit split functions here. Each lazy `(.+?)` is the
  shortest non-empty prefix after which the rest of the pattern matches.
- **The incremental parsers** (`http_request_parser`,
  `http_response_parser`). Each owns a fixed 65536-byte buffer with two
  cursors, a phase, a chunk validator and a head object. `append_input`
  compacts and copies. `parse()` takes one non-blocking step and returns a
  result code and a view of the body bytes.
- **Helpers.** `encode_to_data` and `is_keep_alive` of both heads, the
  result descriptions, `string_to_lower_case`, `remove_trail_blank`, the
  strict unsigned-integer parse, the client's `parse_uri` and `req_to_str`,
  and the MIME table.

## How the model is built

- **Value code becomes functions.** Code that builds values (encoders,
  `is_keep_alive`, the regex dissections, the client helpers, the MIME
  lookup) is written as functions and lemmas.
- **Code that changes state becomes classes.** Code that changes things in
  place becomes classes with `modifies` clauses:
  - `InputBuffers.InputBuffer` holds the `array` buffer and its cursors;
  - `ChunkParsing.ChunkParser` holds the three validator fields;
  - `Heads.RequestHeader` / `Heads.ResponseHeader` are the head objects;
  - `RequestParsing.RequestParser` / `ResponseParsing.ResponseParser` are the two parsers.
- **Each method is proved against a function.** Every method that loops or
  updates in place is tied to a function of the old state:
  - `check` to `ChunkParsing.Run`;
  - `parse_headers` to `HeaderParser.ParseHeadersSpec`;
  - the start-line parsers to `StartLine.RequestHeaderSpec` / `ResponseHeaderSpec`;
  - `parse()` to `RequestParsing.RequestStep` / `ResponseParsing.ResponseStep`.

  The properties the source promises are proved about those functions.
- **Parser state is a value.** `Framing.ParserState` is the parser's state
  as a value: the phase, the unconsumed bytes (`buffer[parser_idx..buffer_size)`),
  the two length counters, the validator and the head. One `parse()` call
  is a `Framing.Step`: a result, the view (a copy of the bytes it hands
  out) and the state after it.

Where the source misbehaves, the model keeps the behaviour as written and
states it as a lemma:

- `remove_trail_blank` is the identity, so trailing blanks stay in header
  values (`Text.RemoveTrailBlank`);
- `parse_uri` reports success on a failed match
  (`StartLineFacts.AbsoluteMismatchReportsSuccess`);
- a body split across two appends is over-read: the length counter is
  never advanced, so the second step hands out the full length again: the
  rest of the body followed by as many bytes of the next message as the
  first piece held (`RequestFacts.SplitBodyOverreads`);
- bytes behind a complete chunked body fail the check with
  `chunk_check_error`, and the `pipeline_not_supported` branch after a
  chunked body is never reached
  (`ResponseFacts.ResponseBytesAfterChunkedBodyFail`,
  `ResponseFacts.ChunkedNeverRefusesPipeline`);
- `Content-Length: 0` stalls a request (`RequestFacts.ZeroLengthStalls`);
- a header line without a colon fails with `(buffer_overflow, 0)` and
  reports no offset (`HeaderParser.MissingColonFails`);
- the request head's `reset` leaves port 0, where the constructor leaves 80
  (`Heads.RequestHeader.Reset`).

The chunked body `"4\r\nWiki\r\n0\r\n\r\n"` is 14 bytes, and all 14 are
consumed (`ChunkParsing.WikiExample`).

## Model

| member | source | states |
|---|---|---|
| Text.StringToLowerCase | src/http_parser.cpp:51-57 | the array afterwards holds the ASCII lower-casing of its old contents, letter by letter |
| Text.LowerIdempotent | src/http_parser.cpp:51-57 | lowering twice is lowering once, and a lowered string has no upper-case letter left |
| Text.RemoveTrailBlank | src/http_parser.cpp:29-50 | the function as written returns its input unchanged: trailing blanks are not removed |
| Text.ParseUnsigned | src/http_parser.cpp:58-113 | a value is returned exactly when the text is non-empty, all decimal digits, and below the bound (2^32 or 2^64); it is then the decimal value. The 32-bit wrap of `stoul` on LP64 is not modelled (see Left out) |
| Text.ParsePrintRoundTrip | src/http_parser.cpp:58-113 | the decimal text of n parses back to n exactly when n is below the bound |
| HttpConst.ErrorsOrderedAfterParseError | include/http_parser.h:27-48 | `result >= parse_error` holds exactly for the terminal error codes, and distinct enumerators have distinct values |
| HttpConst.ResultDescription | src/http_parser.cpp:115-135 | every result maps to 502 "Bad Gateway"; the codes without a fixed text read "unknown error N", with N the enumerator's value |
| HttpConst.DescriptionIsInjective | src/http_parser.cpp:115-135 | two different result codes never get the same description text |
| Headers.NameLessIsLexOfLower | include/http_parser.h:50-59 | the name comparator is lexicographic order on the lower-cased names |
| Headers.StrictWeakOrder | include/http_parser.h:50-59 | the comparator is irreflexive, transitive and has transitive incomparability, and two names are incomparable exactly when they have the same length and the same lower-casing |
| Headers.InsertKeepsSorted | include/http_parser.h:65 | a multimap insert keeps the entries in comparator order |
| Headers.InsertMultiset | include/http_parser.h:65 | an insert adds exactly the new entry and removes none, so duplicates are kept |
| Headers.InsertContents | include/http_parser.h:65 | the new entry comes after every entry of an equivalent name, and the entries of every other name are untouched |
| Headers.InsertAllSorted | include/http_parser.h:65 | inserting a sorted field list into an empty map rebuilds that list, so entries of one name keep insertion order |
| Headers.FindIgnoresCase | src/http_parser.cpp:270-278 | `get_header_value` gives the same answer for any two spellings that lower-case alike |
| Headers.FindAfterInsert | src/http_parser.cpp:270-278 | after an insert, a lookup of that name sees an earlier duplicate's value if there is one, otherwise the new value |
| Headers.EraseKeepsSorted | src/http_parser.cpp:280-283 | erase drops exactly the entries of an equivalent name, reports how many there were, and keeps the rest in order |
| Heads.VersionRoundTrip | src/http_parser.cpp:243-257 | the version digits written for 1.0 and 1.1 are read back as that version |
| Heads.RequestKeepAliveRule | src/http_parser.cpp:197-223 | a 1.1 request stays open unless `Connection` says `close`; a 1.0 request closes unless it says `keep-alive`; an invalid version always closes; case is ignored |
| Heads.ResponseKeepAliveRule | src/http_parser.cpp:1133-1162 | "cannot tell" exactly when a `Connection` header says neither `close` nor `keep-alive`, and "stay open" exactly for `keep-alive`, or for no header with version 1.1 |
| Heads.WithContentLengthContents | src/http_parser.cpp:394-402 | after `encode_to_data(content)` there is exactly one `Content-Length`, holding the content size; other names are untouched and the map stays sorted |
| Heads.RequestHeader.constructor | src/http_parser.cpp:147-149 | a new request head has empty strings, no headers and port 80 |
| Heads.RequestHeader.Reset | src/http_parser.cpp:137-146 | `reset` empties the head but leaves port 0, unlike the constructor |
| Heads.RequestHeader.EraseHeader | src/http_parser.cpp:280-283 | the head loses exactly the entries of that name, and the count returned is how many there were |
| Heads.ResponseHeader.constructor | src/http_parser.cpp:290-292 | a new response head is the reset head |
| Heads.ResponseHeader.Reset | src/http_parser.cpp:293-300 | invalid version, status 200, empty description, no headers |
| Heads.ResponseHeader.SetVersion | src/http_parser.cpp:301-314 | accepts exactly "1.0" and "1.1"; anything else returns false and changes nothing |
| Heads.ResponseHeader.SetStatusCode | src/http_parser.cpp:317-320 | only the status changes |
| Heads.ResponseHeader.SetStatusDescription | src/http_parser.cpp:326-329 | only the description changes |
| Heads.ResponseHeader.AddHeaderValue | src/http_parser.cpp:340-343 | the header map becomes the multimap insert of the pair; nothing else changes |
| Heads.ResponseHeader.EraseHeader | src/http_parser.cpp:345-348 | as for the request head |
| Heads.ResponseHeader.EncodeToDataWithContent | src/http_parser.cpp:394-402 | `Content-Length` is replaced by the content size, and the bytes are the encoded head followed by the content |
| HeaderParser.TokenTableIsTchar | src/http_parser.cpp:17-26 | the `tokens` table holds exactly the `tchar` set of section 3.2.6 of RFC 7230, and no byte from 128 up |
| HeaderParser.HStepGrows | src/http_parser.cpp:435-551 | one byte of the tokenizer never removes a header entry |
| HeaderParser.HRunSorted | src/http_parser.cpp:435-551 | the loop keeps the map in comparator order |
| HeaderParser.HRunEndsWithLf | src/http_parser.cpp:435-551 | the loop reaches the complete state only on an LF and stops right after it |
| HeaderParser.ParseHeadersSpec | src/http_parser.cpp:552-556 | the result is `(read_one_header, n)` with n just past an LF, or `(buffer_overflow, 0)`; the map only gains entries and stays sorted |
| HeaderParser.ParseHeaders | src/http_parser.cpp:404-557 | the per-byte loop over the state variable computes exactly `ParseHeadersSpec` |
| HeaderParser.CompleteStopsReading | src/http_parser.cpp:435-551 | bytes after a complete block are never read: the result is the same whatever follows |
| HeaderParser.EmptyBlock | src/http_parser.cpp:439-456 | CR LF right away is an empty block of two bytes, and the map is unchanged |
| HeaderParser.CrCrSkipsBytes | src/http_parser.cpp:542-547 | after CR in the last state, a stray byte is skipped rather than failing |
| HeaderParser.StrayFirstByteFails | src/http_parser.cpp:439-456 | a block whose first byte is neither a token character nor CR fails and leaves the map unchanged |
| HeaderParser.MissingColonFails | src/http_parser.cpp:457-473 | a field name followed by anything but a token character or colon fails the block with `(buffer_overflow, 0)` |
| HeaderParser.LeadingBlanksSkipped | src/http_parser.cpp:474-490 | any run of SP and HT after the colon, including none or a tab, is skipped: the field inserted holds exactly the value after it, and the block ends just after the empty line |
| HeaderParser.ObsFoldJoinsLines | src/http_parser.cpp:512-541 | a continuation line starting with SP or HT is joined to the previous value with that byte kept, and one field is inserted |
| HeaderParser.ParseEncodedFields | src/http_parser.cpp:439-541 | fields written as `name: value CRLF` and then CRLF parse back to exactly those insertions, ending just after the empty line |
| HeaderParser.ParseEncodedMap | src/http_parser.cpp:404-557 | the header block `encode_to_data` writes for a sorted map parses, into an empty map, to that same map |
| Uri.MatchTailIff | src/http_parser.cpp:591 | the tail matcher returns captures g exactly when the declarative tail pattern matches with g, so captures are unique |
| Uri.FindHost | src/http_parser.cpp:591 | the shortest host length from which the tail pattern matches, or none at all |
| Uri.FindScheme | src/http_parser.cpp:564 | the shortest scheme after which `://`, a host and the tail match, or none at all |
| Uri.SplitHostIsFirstMatch | src/http_parser.cpp:591-596 | the split is a match of `(.+?)` plus the tail with no shorter host that would match; `None` means no match exists |
| Uri.SplitAbsoluteIsFirstMatch | src/http_parser.cpp:564-569 | the split of `(.+?)://(.+?)(:(\d+))?(/.*)` has the shortest scheme, then the shortest host; `None` means no match exists |
| Uri.OptionalFormFails | src/http_parser.cpp:591-596 | the host pattern fails exactly on the empty text and on text holding CR or LF |
| Uri.SplitAtFirstSeparator | src/http_parser.cpp:591-615 | when a match's host has no colon and no slash, it is the match the regex finds |
| Uri.PlainHost | src/http_parser.cpp:591-615 | a host name without colon or slash is taken whole, with no port and no path |
| Uri.HostColonPort | src/http_parser.cpp:646-662 | `host:digits` splits at the colon, for the `Host` pattern and the CONNECT pattern alike |
| Uri.SplitAbsoluteAtFirstSeparators | src/http_parser.cpp:564-586 | an absolute URI splits at its first `://` and the first separator after it |
| StartLine.TokenEnd | src/http_parser.cpp:625-626 | the cursor stops at the first SP or CR at or after i, or at the end |
| StartLine.LineEnd | src/http_parser.cpp:683-686 | the cursor stops at the first CR at or after i, or at the end |
| StartLine.ShortValue | src/http_parser.cpp:574-583 | a port or status is accepted exactly when it parses as `uint32_t` and is below 65535, so 65535 itself is refused |
| StartLine.ShortValueOfNat | src/http_parser.cpp:574-583 | a decimal n is accepted exactly when n < 65535, and then gives n |
| StartLine.ParseUri | src/http_parser.cpp:559-618 | `parse_uri` never changes method, version or headers |
| StartLine.DissectTarget | src/http_parser.cpp:643-680 | the target step gives `read_one_header`, `buffer_overflow` or `invalid_uri`, and never changes method, version or headers |
| StartLine.ParseUriInto | src/http_parser.cpp:559-618 | writing into the head object computes exactly `ParseUri` |
| StartLine.ScanToken | src/http_parser.cpp:625-626 | the cursor loop stops where `TokenEnd` says |
| StartLine.ScanLine | src/http_parser.cpp:683-686 | the cursor loop stops where `LineEnd` says |
| StartLine.ParseRequestHeader | src/http_parser.cpp:620-729 | the result and the head object afterwards are exactly `RequestHeaderSpec` of the bytes and the old head |
| StartLine.ParseMethodThen | src/http_parser.cpp:633-634 | the method token is stored, and the rest of the line is parsed as `RequestTargetSpec` says |
| StartLine.ParseRequestTarget | src/http_parser.cpp:634-680 | the target part, then the rest of the line, computes `RequestTargetSpec` |
| StartLine.ParseTargetThen | src/http_parser.cpp:644-682 | a failed dissection ends the line with its result; otherwise the version step follows, as `TargetThen` says |
| StartLine.DissectTargetInto | src/http_parser.cpp:643-680 | the target dissection on the head object computes `DissectTarget` |
| StartLine.ParseRequestVersion | src/http_parser.cpp:682-729 | the version, CRLF, header block and `Host` step compute `RequestVersionSpec` |
| StartLine.ParseRequestFields | src/http_parser.cpp:712-728 | the header block and the `Host` step compute `RequestFieldsSpec` |
| StartLine.ParseResponseHeader | src/http_parser.cpp:731-807 | the result and the head object afterwards are exactly `ResponseHeaderSpec` of the bytes and the old head |
| StartLine.ParseStatus | src/http_parser.cpp:753-786 | the status token and optional description compute `StatusSpec` |
| StartLine.ParseStatusRest | src/http_parser.cpp:772-786 | the code is stored; a description after SP runs to the CR, and a line with no CR fails with the code already stored; then the line end, as `StatusRestSpec` says |
| StartLine.FinishStatusLine | src/http_parser.cpp:788-807 | the CRLF and the header block compute `StatusLineEndSpec`; any block failure is `parse_error` |
| StartLineFacts.RequestMethodAt | src/http_parser.cpp:623-634 | the method is the text before the first SP |
| StartLineFacts.RequestTargetAt | src/http_parser.cpp:634-680 | the target runs to the next SP and is dissected; the version is read only if the dissection succeeded |
| StartLineFacts.RequestVersionAt | src/http_parser.cpp:682-711 | only the versions "1.0" and "1.1" go on to the header block; any other gives `invalid_version` |
| StartLineFacts.RequestLineSplit | src/http_parser.cpp:620-711 | a request line `method SP target SP HTTP/version CRLF` is split into exactly those parts |
| StartLineFacts.OriginFormTarget | src/http_parser.cpp:673-678 | a target without `://` (method not CONNECT) is the whole path, with scheme `http` and port 80 |
| StartLineFacts.ConnectTarget | src/http_parser.cpp:644-662 | a CONNECT target `host:port` sets host and port when port < 65535; otherwise `buffer_overflow` with the host already written |
| StartLineFacts.ParseUriPlainHost | src/http_parser.cpp:590-615 | a `Host` value that is a bare name changes only the host |
| StartLineFacts.ParseUriHostPort | src/http_parser.cpp:590-615 | a `Host` value `host:port` sets host and port; a port of 65535 or more fails with the host already written |
| StartLineFacts.ParseUriEmpty | src/http_parser.cpp:591-596 | an empty `Host` value fails and writes nothing |
| StartLineFacts.AbsoluteMismatchReportsSuccess | src/http_parser.cpp:561-569 | a text with `://` that the absolute pattern cannot match is reported as success, and nothing is written |
| StartLineFacts.SchemeMissingReportsSuccess | src/http_parser.cpp:561-569 | for instance `://x` reports success and writes nothing |
| StartLineFacts.AbsoluteSplit | src/http_parser.cpp:564 | `scheme://host[:port]/path` splits into exactly those parts |
| StartLineFacts.ParseUriAbsolute | src/http_parser.cpp:561-587 | an absolute URI writes scheme and host, then the port if present and below 65535 (a larger one fails), then the path |
| RoundTrips.ResponseVersionAt | src/http_parser.cpp:733-752 | only versions "1.0" and "1.1" reach the status code; anything else is `invalid_version` with the head unchanged |
| RoundTrips.StatusWithDescription | src/http_parser.cpp:753-786 | a status code, SP and a description up to CR set status and description |
| RoundTrips.StatusWithoutDescription | src/http_parser.cpp:772-790 | a status code followed directly by CR sets the status and leaves the description as it was |
| RoundTrips.StatusOutOfRange | src/http_parser.cpp:763-771 | a status code that does not parse below 65535 fails the line with `buffer_overflow` and an unchanged head, whatever follows |
| RoundTrips.StatusLineEndAt | src/http_parser.cpp:788-807 | after the CRLF a failing header block is `parse_error`, and the status fields read before it stay |
| RoundTrips.EncodedBlock | src/http_parser.cpp:259-265 | the header lines `encode_to_data` writes, plus CRLF, parse back into an empty map as that map |
| RoundTrips.DescribedLineSplit | src/http_parser.cpp:731-807 | a status line `HTTP/v SP code SP description CRLF` splits into exactly those parts |
| RoundTrips.BareLineSplit | src/http_parser.cpp:731-807 | a status line `HTTP/v SP code CRLF` splits into version and code |
| RoundTrips.ResponseRoundTrip | src/http_parser.cpp:356-393 | parsing what the response `encode_to_data` wrote gives back version, status, description (when non-empty) and header map |
| RoundTrips.ConnectRoundTrip | src/http_parser.cpp:224-269 | a CONNECT request reads back as written: method, host, port, version and headers |
| RoundTrips.AbsoluteRoundTrip | src/http_parser.cpp:224-269 | an absolute-form request reads back as written; a port of 80 or 0 is not written, so the old port stays |
| RoundTrips.OriginFormWithHost | src/http_parser.cpp:718-727 | an origin-form request with `Host: host:port` gets path = target, scheme `http`, and host and port from the header; port 65535 or more is `invalid_uri` |
| Framing.HeaderEnd | src/http_parser.cpp:847-863 | the offset of the earliest CR LF CR LF among the unconsumed bytes, or none |
| Framing.FindDoubleCrlf | src/http_parser.cpp:852-859 | the search loop finds exactly that earliest terminator, or returns `buffer_size` |
| Framing.BodyFramingByName | src/http_parser.cpp:890-891 | the framing depends only on the `Content-Length` and `Transfer-Encoding` entries, found case-insensitively |
| Framing.FramingFrom | src/http_parser.cpp:892-918 | a length, when chosen, is below 2^64 |
| Framing.ContentLengthWins | src/http_parser.cpp:892-914 | `Content-Length` decides whenever present, whatever `Transfer-Encoding` says; it must parse as uint64; otherwise `chunked` (in any case) selects chunked; neither header means unframed |
| Framing.ContentStep | src/http_parser.cpp:926-942 | a fixed-length step reports `read_content_end` or `read_some_content` |
| Framing.ContentStepSplits | src/http_parser.cpp:926-942 | the view and the rest reassemble the buffered bytes; the body ends exactly when the remaining target is buffered, handing out exactly that many bytes; otherwise the remaining target is unchanged |
| Framing.CheckPending | src/http_parser.cpp:945-951 | `check` over the unconsumed bytes either consumes all of them or fails before the end |
| InputBuffers.InputBuffer.constructor | src/http_parser.cpp:809-815 | a new buffer has both cursors at 0 and no unconsumed bytes |
| InputBuffers.InputBuffer.Compact | src/http_parser.cpp:818-823 | moving the unconsumed bytes to the front keeps them the same, with the cursor at 0 |
| InputBuffers.InputBuffer.CopyIn | src/http_parser.cpp:829-831 | the new bytes are appended after the unconsumed ones |
| InputBuffers.InputBuffer.Append | src/http_parser.cpp:816-833 | compacts when half the buffer is consumed; refuses exactly when the bytes would fill the buffer; appends them exactly otherwise; the cursors stay in order below the capacity |
| ChunkParsing.HexValue | include/http_chunk_parser.h:65 | a hex digit's value, upper or lower case, is below 16 |
| ChunkParsing.RunReportsOffendingByte | include/http_chunk_parser.h:58-154 | with no violation every byte is consumed; on a violation the validator is failed and the count is the offset of the offending byte, after which the bytes before it were accepted |
| ChunkParsing.CheckSplits | include/http_chunk_parser.h:58-154 | checking `a + b` in one call equals checking `a` and then `b`, whenever the first call succeeds |
| ChunkParsing.CompleteRejectsMore | include/http_chunk_parser.h:145-152 | once complete, any further byte fails at offset 0 |
| ChunkParsing.SizeAccumulates | include/http_chunk_parser.h:71-76 | the size accumulates as `size * 16 + digit` modulo 2^32, for either case of hex letter |
| ChunkParsing.ExtensionIgnored | include/http_chunk_parser.h:88-94 | after `;` or SP in the size line every byte up to CR is accepted and changes nothing |
| ChunkParsing.RunData | include/http_chunk_parser.h:109-114 | within a chunk, data bytes are accepted and only counted |
| ChunkParsing.EncodedChunksComplete | include/http_chunk_parser.h:95-144 | a well-formed chunked body (sized chunks, CRLFs, terminal `0 CRLF CRLF`) is accepted whole and ends complete with size 0 |
| ChunkParsing.WikiExample | include/http_chunk_parser.h:58-154 | `"4\r\nWiki\r\n0\r\n\r\n"` is accepted whole (14 bytes), ends complete with size 0, and the size after the first line is 4 |
| ChunkParsing.ChunkParser.constructor | include/http_chunk_parser.h:31-33 | the validator starts at `chunk_size_start` with both counters 0 |
| ChunkParsing.ChunkParser.IsComplete | include/http_chunk_parser.h:35-38 | true exactly in the complete state |
| ChunkParsing.ChunkParser.IsFail | include/http_chunk_parser.h:45-48 | true exactly in the failed state |
| ChunkParsing.ChunkParser.ChunkSize | include/http_chunk_parser.h:49-52 | the size declared by the latest size line |
| ChunkParsing.ChunkParser.Reset | include/http_chunk_parser.h:39-44 | `reset` restores the constructor's state |
| ChunkParsing.ChunkParser.Check | include/http_chunk_parser.h:54-155 | requires a validator that has not failed; the result and the new fields are exactly `Run` of the old fields over the bytes |
| RequestParsing.AcceptRequestHead | src/http_parser.cpp:866-924 | after a head no bytes are handed out; `read_one_header` only for a valid method and version; `invalid_version` only when the head parsed but the version is invalid |
| RequestParsing.RequestBodyPhase | src/http_parser.cpp:879-924 | the phase choice gives `read_one_header`, `bad_request`, `invalid_transfer_encoding` or `parse_error`, and consumes nothing |
| RequestParsing.RequestChunkStep | src/http_parser.cpp:943-962 | the view and the rest reassemble the buffered bytes |
| RequestParsing.RequestParser.constructor | src/http_parser.cpp:809-815 | a new parser reads heads, has nothing buffered, and keeps the pipelining flag it was given |
| RequestParsing.RequestParser.Status | src/http_parser.cpp:1176-1180 | the current phase |
| RequestParsing.RequestParser.AppendInput | src/http_parser.cpp:816-833 | only the unconsumed bytes change: they gain the input exactly when it fits |
| RequestParsing.RequestParser.Reset | src/http_parser.cpp:1181-1190 | back to the fresh state, except that the head has port 0 |
| RequestParsing.RequestParser.ResetHeader | src/http_parser.cpp:1167-1170 | only the head is reset |
| RequestParsing.RequestParser.Parse | src/http_parser.cpp:834-967 | result, view and new state are exactly `RequestStep` of the old state |
| RequestParsing.RequestParser.ParseHead | src/http_parser.cpp:846-925 | the `read_header` branch computes `RequestHeadStep` |
| RequestParsing.RequestParser.AcceptHead | src/http_parser.cpp:866-924 | the checks after a head compute `AcceptRequestHead` |
| RequestParsing.RequestParser.ChooseBodyPhase | src/http_parser.cpp:879-924 | the phase choice computes `RequestBodyPhase` |
| RequestParsing.RequestParser.ParseContent | src/http_parser.cpp:926-942 | the `read_content` branch computes `ContentStep` |
| RequestParsing.RequestParser.ParseChunked | src/http_parser.cpp:943-962 | the `read_chunked` branch computes `RequestChunkStep` |
| RequestFacts.FieldsKeepVersion | src/http_parser.cpp:712-728 | the header block and the `Host` step never touch the version and only add entries |
| RequestFacts.AcceptedHeadHasVersion | src/http_parser.cpp:620-729 | an accepted request head has a valid version, and the header map only grows |
| RequestFacts.HeadStepFacts | src/http_parser.cpp:846-878 | a head step hands out nothing; with no terminator it changes nothing and reports `reading_header`; otherwise the cursor moves past the earliest terminator whatever the outcome |
| RequestFacts.StepResults | src/http_parser.cpp:834-967 | `waiting_input` exactly when nothing is buffered (outside the bodyless hand-over); `reading_header` exactly when a head is incomplete; both change nothing; `invalid_version` never arises |
| RequestFacts.BodyPhaseChosen | src/http_parser.cpp:879-924 | after an accepted head the method and the framing headers alone decide the phase |
| RequestFacts.AcceptChosen | src/http_parser.cpp:866-924 | the same after the checks |
| RequestFacts.AcceptedHeadPhase | src/http_parser.cpp:846-925 | an accepted head was terminated, handed out nothing, moved the cursor past the terminator, and chose the phase by method and framing |
| RequestFacts.BodylessThenContentEnd | src/http_parser.cpp:837-841 | after a GET, HEAD, DELETE or CONNECT head, the next step reports `read_content_end` with an empty view, even on an empty buffer |
| RequestFacts.FixedLengthStep | src/http_parser.cpp:926-942 | a fixed-length step hands out the front of the buffered bytes: all of them until the target is buffered, then exactly the remaining target, back in `read_header` |
| RequestFacts.ZeroLengthStalls | src/http_parser.cpp:842-845 | with `Content-Length: 0` the parser reports `waiting_input` while the buffer is drained, and `read_content_end` only once a byte of the next message arrives |
| RequestFacts.SplitBodyOverreads | src/http_parser.cpp:936-941 | a body split across two appends is over-read: the first step hands out the first piece `b1`, and the second step hands out the full length again, the rest of the body followed by as many bytes of the next message as `b1` holds |
| RequestFacts.ChunkedStep | src/http_parser.cpp:943-962 | a checker failure gives `chunk_check_error` and consumes nothing; otherwise every buffered byte is handed out, and the body ends exactly when the validator completes |
| RequestFacts.BytesAfterChunkedBodyFail | src/http_parser.cpp:943-949 | bytes buffered behind a complete chunked body give `chunk_check_error`, and the body itself is not handed out |
| ResponseParsing.AcceptResponseHead | src/http_parser.cpp:1021-1080 | after a head no bytes are handed out; `read_one_header` only with a valid version; `invalid_version` only when the head parsed but the version is invalid |
| ResponseParsing.ResponseBodyPhase | src/http_parser.cpp:1031-1080 | the phase choice gives `read_one_header`, `bad_request`, `invalid_transfer_encoding` or `pipeline_not_supported`, and consumes nothing |
| ResponseParsing.MessageDone | src/http_parser.cpp:1072-1080 | a message ended by its head is refused exactly when bytes remain and pipelining is off; nothing changes |
| ResponseParsing.ResponseChunkStep | src/http_parser.cpp:1103-1126 | the chunked step gives `chunk_check_error`, `read_content_end`, `read_some_content` or `pipeline_not_supported` |
| ResponseParsing.ResponseParser.constructor | src/http_parser.cpp:969-975 | a new parser reads heads, has nothing buffered, and keeps the pipelining flag it was given |
| ResponseParsing.ResponseParser.Status | src/http_parser.cpp:1171-1175 | the current phase |
| ResponseParsing.ResponseParser.AppendInput | src/http_parser.cpp:976-993 | only the unconsumed bytes change: they gain the input exactly when it fits |
| ResponseParsing.ResponseParser.Reset | src/http_parser.cpp:1191-1200 | back to the fresh state |
| ResponseParsing.ResponseParser.ResetHeader | src/http_parser.cpp:1163-1166 | only the head is reset |
| ResponseParsing.ResponseParser.Parse | src/http_parser.cpp:994-1132 | result, view and new state are exactly `ResponseStep` of the old state and the pipelining flag |
| ResponseParsing.ResponseParser.ParseHead | src/http_parser.cpp:1001-1081 | the `read_header` branch computes `ResponseHeadStep` |
| ResponseParsing.ResponseParser.AcceptHead | src/http_parser.cpp:1021-1080 | the checks after a head compute `AcceptResponseHead` |
| ResponseParsing.ResponseParser.ChooseBodyPhase | src/http_parser.cpp:1031-1080 | the phase choice computes `ResponseBodyPhase` |
| ResponseParsing.ResponseParser.ParseContent | src/http_parser.cpp:1082-1102 | the `read_content` branch computes `ResponseContentStep` |
| ResponseParsing.ResponseParser.ParseChunked | src/http_parser.cpp:1103-1127 | the `read_chunked` branch computes `ResponseChunkStep` |
| ResponseFacts.AcceptedResponseHasVersion | src/http_parser.cpp:731-807 | an accepted response head has a valid version, and the header map only grows |
| ResponseFacts.ResponseHeadStepFacts | src/http_parser.cpp:1001-1030 | a head step hands out nothing; with no terminator it changes nothing; otherwise the cursor moves past the earliest terminator; `invalid_version` never arises from it |
| ResponseFacts.ResponseBodyPhaseChosen | src/http_parser.cpp:1031-1080 | after an accepted head, a positive length reads content, chunked gets a fresh validator, and zero length or no framing returns to `read_header` |
| ResponseFacts.ResponseHeadOnlyMessage | src/http_parser.cpp:1045-1080 | a message that ends with its head is refused exactly when bytes remain behind it and pipelining is off; the phase is `read_header` either way |
| ResponseFacts.ResponseAcceptedHeadPhase | src/http_parser.cpp:1001-1081 | an accepted head was terminated, handed out nothing, moved the cursor past the terminator, and chose the phase by the framing headers |
| ResponseFacts.ResponseStepResults | src/http_parser.cpp:994-1132 | `waiting_input` exactly when nothing is buffered; `reading_header` exactly when a head is incomplete; `read_header_only_finish` is an invalid status here |
| ResponseFacts.ResponseFixedLengthStep | src/http_parser.cpp:1082-1102 | more bytes than the remaining target with pipelining off are refused and change nothing; otherwise the step is the fixed-length step |
| ResponseFacts.ChunkedNeverRefusesPipeline | src/http_parser.cpp:1115-1118 | the `pipeline_not_supported` branch after a complete chunked body can never be taken |
| ResponseFacts.ResponseChunkedStep | src/http_parser.cpp:1103-1127 | a checker failure gives `chunk_check_error` and consumes nothing; otherwise every buffered byte is handed out, and the body ends exactly when the validator completes |
| ResponseFacts.ResponseBytesAfterChunkedBodyFail | src/http_parser.cpp:1103-1109 | bytes pipelined behind a complete chunked response give `chunk_check_error`, not `pipeline_not_supported` |
| Client.ReqToStr | src/http_client.cpp:17-31 | the request text ends with the body |
| Client.UserHeadersInOrder | src/http_client.cpp:23-26 | each user header line appears, in vector order, after the fixed headers |
| Client.OpeningFirst | src/http_client.cpp:20-26 | the text begins with the request line, `Host`, `Accept` and the user headers, in that order |
| Client.PortNotWritten | src/http_client.cpp:17-31 | the server port plays no part in the text |
| Client.DeclaredLengthIsBodySize | src/http_client.cpp:28-29 | the `Content-Length` digits, read back, give exactly the body size, and the blank line follows them directly before the body |
| Client.HttpsRefused | src/http_client.cpp:134-137 | an input starting with `https` gives "https not supported" and leaves the three out-parameters untouched, and only such inputs do |
| Client.SplitPathParts | src/http_client.cpp:143-152 | with no `/` the path is `/`; otherwise the path runs from the first `/` and the authority is the text before it |
| Client.SplitAuthorityParts | src/http_client.cpp:154-164 | with no `:` the port is `80` and the host the whole authority; otherwise the split is at the first `:` |
| Client.ParseUriSplits | src/http_client.cpp:138-165 | on success the error is empty, at most one leading `http://` is removed, and host, an optional `:port` and the path (if any) reassemble the rest; host has no `:` or `/`, port has no `/`, path starts with `/` |
| Client.ComposedUrlSplits | src/http_client.cpp:131-166 | `http://host:port/path` with plain parts splits back into host, port and path |
| Client.ComposedUrlDefaultPort | src/http_client.cpp:154-158 | a URL without a port gives port `80` |
| Mime.Lookup | src/mime_types.cpp:20-31 | the result is the type of some row with that extension, or `text/plain` when no row has it |
| Mime.LookupFindsFirst | src/mime_types.cpp:22-28 | the search returns the type of the first matching row |
| Mime.LookupDefault | src/mime_types.cpp:30 | with no matching row the result is `text/plain` |
| Mime.ExtensionToType | src/mime_types.cpp:20-31 | the loop with early return computes `Lookup` over the table |
| Mime.KnownExtension | src/mime_types.cpp:12-18 | each of gif, htm, html, jpg, png gives its own row's type |
| Mime.OtherExtensions | src/mime_types.cpp:12-30 | `text/plain` exactly for extensions outside the table, and the result is always one of five types |
| Mime.UpperCaseIsUnknown | src/mime_types.cpp:24 | matching is case-sensitive: `GIF` gives `text/plain` |

## Left out

- **I/O and orchestration.** Sockets, timers, logging, the server accept
  loop, connection management and its mutex are not modelled:
  src/http_connection.cpp, src/http_server.cpp, src/connection.cpp,
  src/connection_manager.cpp and the asynchronous handlers of
  src/http_client.cpp. They are orchestration around the parser.
- **The wrapper parsers.** src/request_parser.cpp, include/request_parser.hpp
  and include/reply_parser.h wrap a C parser whose code is not part of this
  model.
- **`std::regex`** is replaced by explicit shortest-prefix split functions.
  ECMAScript `.` is taken to exclude CR and LF.
- **Integer parsing.** The platform-dependent parse (`from_chars` accepting
  a prefix, `stoul` accepting whitespace and signs) is modelled by one
  strict contract: non-empty, digits only, the whole text, below the bound.
- Text.ParseUnsigned: refuses digit strings from 2^32 up for the 32-bit
  parse. Where `std::stoul` returns a 64-bit `unsigned long` (LP64), the
  source narrows its result to 32 bits, so such strings wrap modulo 2^32
  (`4294967376` reads as port 80, status `4294967496` as 200). The model
  refuses them, and so `StartLineFacts.ConnectTarget`,
  `StartLineFacts.ParseUriHostPort`, `RoundTrips.OriginFormWithHost` and
  `RoundTrips.StatusOutOfRange` state a failure for these inputs.
- **Views.** A `string_view` into the buffer is modelled as a copied
  sequence, so its lifetime up to the next call is not modelled.
- **Uninitialised fields.** Fields the source leaves uninitialised (the
  heads' version and status, the two parsers' length counters) start at
  `v_invalid`, 200 and 0.
- **Locale.** `std::tolower` is ASCII-only. Bytes from 128 up are never
  token characters; the source's signed `char` index is not modelled.
  The name comparator (`Headers.NameLess`) also compares characters as
  unsigned, so bytes from 128 up sort after ASCII, where the source's
  signed `char` sorts them before. Only names given to `add_header_value`
  can hold such bytes; parsed names are token characters.
- **The request pipelining flag.** The request parser's flag is stored and
  never read, as in the source.
- **Other methods after the method check.** The `parse_error` branch for
  methods other than the six valid ones is modelled, though it cannot be
  reached after `valid_method`.
- **The client.** Its port is kept as a string, as the source does. The
  out-parameters of `parse_uri` are returned in a record.
- **Skipped accessors.** The read-only accessors of the heads (`method()`,
  `host()`, `get_headers_map()` and the like) are plain field reads and
  have no members of their own. `get_header_value` is `Headers.Find`.
  `multimap::find` may return any entry equivalent to the key; the model
  returns the first one (the lower bound), as common standard libraries
  do, and `Headers.FindAfterInsert` depends on that choice.
  `http_const.h` and `http_packet.hpp` enter only as datatypes.
- Framing.FramingFrom: its own contract states only the length bound; the
  precedence rule is stated by `Framing.ContentLengthWins`.
- Client.ReqToStr: its own contract states only that the text ends with the
  body; its layout is stated by `Client.OpeningFirst`,
  `Client.UserHeadersInOrder` and `Client.DeclaredLengthIsBodySize`.
- **Checker failure inside `parse()`.** `parse()` in the chunked phase
  requires a validator that has not failed, as `check` asserts. A parser
  left in `read_chunked` after a `chunk_check_error` cannot be stepped
  again in the model.
- **Arrival order.** Results for messages delivered in different append
  sizes are not compared in general. Only the two-piece case of
  `RequestFacts.SplitBodyOverreads` is stated, and there the source differs
  from one single append.
