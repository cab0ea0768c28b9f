# kiftd range file writer, modelled in Dafny

This project models `RangeFileStreamWriter.writeRangeFileStream` from the kiftd file server.
The method sends a file in answer to an HTTP download and supports single byte-range requests
of the `Range: bytes=N-` and `Range: bytes=N-M` shapes (RFC 7233, sections 2.1, 2.3, 4.1
and 4.2). It has two phases, modelled in two halves:

- **Header phase** (`RangeHeader`). It is modelled as pure functions:
  - `ParseRange` turns the optional `Range` header into the method's locals: `startOffset`,
    `hasEnd`, `endOffset`, `contentLength` and `rangeBytes`.
  - It can also return the exception that ends the request.
  - `Respond` gives the status, `Content-Type`, `Content-Disposition`, `Accept-Ranges`,
    `Content-Length` and `Content-Range` that the writer sets.
- **Body phase** (`RangeStream`). It is modelled imperatively:
  - The two copy loops are methods over a `ByteBuffer` class (position, limit, `flip`,
    `clear`, `get`) and a `FileChannel` class (`position`, `read`), declared in `Nio`.
  - Each loop is proved against a specification function of the file's bytes.
  - The open-ended/whole-file loop writes exactly `Remaining(file, start)`.
  - The closed loop writes `ClosedWritten(...)`: whole buffers until at least
    `contentLength` bytes have been read.
  - The closed loop completes only when the file holds `contentLength` bytes from `start`.
  - `WriteRangeFileStream` puts the two phases together.

The model keeps what the code does, including three behaviours that differ from an idealised
range server, each proved in `Scenarios`:
- A range starting at 0 (such as `bytes=0-9`) gets status 206 but no `Content-Range`.
- The declared `Content-Length` can be negative: a start past the end of the file, an end
  before the start, or `end - start + 1` wrapping around in `long` arithmetic.
- The closed loop can write up to a buffer's worth of bytes past the requested end.

Where the code departs from what its comments or RFC 7233 lead a reader to expect, the model
follows the code:
- The comment at `RangeFileStreamWriter.java:121` says the closed branch writes from the start
  offset to the requested end offset. The loop can overrun that end
  (`Scenarios.TenBytesAskedSixtyFourWritten`).
- Section 4.2 of RFC 7233 expects a `Content-Range` in a 206 response. The code omits it when
  the start is 0 (`Scenarios.ClosedFromZeroHasNoContentRange`).
- A malformed range is not answered with an error status. The Java exception escapes the
  method, and the model returns it as a `Fault`.

Java library behaviour is modelled in `JavaLang`:
- `Long.parseLong`: an optional sign, decimal digits, and the 64-bit range.
- `"" + long`.
- `String.trim`: strips characters up to `' '`.
- `indexOf`, `endsWith`.
- `replaceAll` with a literal pattern.
- Two's-complement wrap-around of a `long` sum.

Files: `wrappers.dfy`, `java_lang.dfy`, `nio.dfy`, `range_header.dfy`, `range_stream.dfy`,
`scenarios.dfy`.

## Model

| member | source | states |
|---|---|---|
| JavaLang.WrapLong | src/main/java/kohgylw/kiftd/server/util/RangeFileStreamWriter.java:85 | a `long` addition's result is a long, is the exact value when that fits, and otherwise differs from it by 2^64 |
| JavaLang.ParseLong | src/main/java/kohgylw/kiftd/server/util/RangeFileStreamWriter.java:77 | `Long.parseLong` rejects the empty string, yields only longs, and yields a non-negative value for text without '-' |
| JavaLang.ParseLongOfDigits | src/main/java/kohgylw/kiftd/server/util/RangeFileStreamWriter.java:77 | on digits (with or without a `+`) `Long.parseLong` yields their value when it is at most `Long.MAX_VALUE` and throws above it; with a `-` it yields the negated value down to `Long.MIN_VALUE` |
| JavaLang.ParseLongSyntax | src/main/java/kohgylw/kiftd/server/util/RangeFileStreamWriter.java:82-83 | every accepted string is an optional sign followed by at least one decimal digit |
| JavaLang.DecimalDigits | src/main/java/kohgylw/kiftd/server/util/RangeFileStreamWriter.java:90 | the rendering of a natural number is non-empty, all digits, has no leading zero, and denotes that number |
| JavaLang.LongToString | src/main/java/kohgylw/kiftd/server/util/RangeFileStreamWriter.java:90 | `"" + n` is non-empty, starts with '-' exactly for a negative n, and is otherwise all digits |
| JavaLang.LongToStringRoundTrip | src/main/java/kohgylw/kiftd/server/util/RangeFileStreamWriter.java:90 | `Long.parseLong("" + n) == n` for every long n |
| JavaLang.TrimStart | src/main/java/kohgylw/kiftd/server/util/RangeFileStreamWriter.java:77 | the result is a suffix of the input that does not start with a blank |
| JavaLang.TrimEnd | src/main/java/kohgylw/kiftd/server/util/RangeFileStreamWriter.java:77 | the result is a prefix of the input that does not end with a blank |
| JavaLang.TrimStartDropsBlanks | src/main/java/kohgylw/kiftd/server/util/RangeFileStreamWriter.java:77 | only blanks are dropped from the front |
| JavaLang.TrimEndDropsBlanks | src/main/java/kohgylw/kiftd/server/util/RangeFileStreamWriter.java:77 | only blanks are dropped from the back |
| JavaLang.Trim | src/main/java/kohgylw/kiftd/server/util/RangeFileStreamWriter.java:77 | `trim()` is no longer than its input and neither starts nor ends with a blank |
| JavaLang.PaddedInStages | src/main/java/kohgylw/kiftd/server/util/RangeFileStreamWriter.java:77 | dropping blanks from the front, then from the back, leaves an infix with only blanks around it |
| JavaLang.TrimStartEndPadded | src/main/java/kohgylw/kiftd/server/util/RangeFileStreamWriter.java:77 | the two halves of `trim()` leave an infix of the input with only blanks around it |
| JavaLang.TrimIsPaddedInfix | src/main/java/kohgylw/kiftd/server/util/RangeFileStreamWriter.java:77 | `trim()` returns an infix of its argument, and only blanks surround that infix |
| JavaLang.TrimKeepsOut | src/main/java/kohgylw/kiftd/server/util/RangeFileStreamWriter.java:77 | trimming introduces no character absent from its argument |
| JavaLang.TrimLeavesTrimmed | src/main/java/kohgylw/kiftd/server/util/RangeFileStreamWriter.java:83 | a string with no blank at either end is unchanged by `trim()` |
| JavaLang.TrimIdempotent | src/main/java/kohgylw/kiftd/server/util/RangeFileStreamWriter.java:83 | `trim()` is idempotent |
| JavaLang.IndexOf | src/main/java/kohgylw/kiftd/server/util/RangeFileStreamWriter.java:82-83 | `indexOf` gives -1 exactly when the character is absent, and otherwise its first position |
| JavaLang.RemoveAll | src/main/java/kohgylw/kiftd/server/util/RangeFileStreamWriter.java:74 | `replaceAll(pat, "")` never lengthens the text |
| JavaLang.RemoveAllWithoutFirstChar | src/main/java/kohgylw/kiftd/server/util/RangeFileStreamWriter.java:74 | text lacking the pattern's first character comes back unchanged |
| JavaLang.RemoveAllLeading | src/main/java/kohgylw/kiftd/server/util/RangeFileStreamWriter.java:74 | a leading occurrence is removed and the scan continues after it |
| JavaLang.RemoveAllFree | src/main/java/kohgylw/kiftd/server/util/RangeFileStreamWriter.java:74 | text in which the pattern occurs at no index comes back unchanged |
| JavaLang.RemoveAllFirst | src/main/java/kohgylw/kiftd/server/util/RangeFileStreamWriter.java:74 | the leftmost occurrence is removed, the text before it is kept, and the scan resumes right after it; with `RemoveAllFree` this fixes the result on every input |
| Nio.ByteBuffer.Allocate | src/main/java/kohgylw/kiftd/server/util/RangeFileStreamWriter.java:104 | a new buffer of the given capacity: position 0, limit at capacity |
| Nio.ByteBuffer.Flip | src/main/java/kohgylw/kiftd/server/util/RangeFileStreamWriter.java:115 | `flip()` moves the limit to the position and the position to 0 |
| Nio.ByteBuffer.Clear | src/main/java/kohgylw/kiftd/server/util/RangeFileStreamWriter.java:131 | `clear()` moves the position to 0 and the limit to the capacity |
| Nio.ByteBuffer.Get | src/main/java/kohgylw/kiftd/server/util/RangeFileStreamWriter.java:116 | `get(dst, off, len)` copies `len` bytes from the position and advances it. It fails (the Java exception) exactly for a negative or out-of-array range or more than remain, and then changes nothing |
| Nio.FileChannel.Open | src/main/java/kohgylw/kiftd/server/util/RangeFileStreamWriter.java:108 | a channel over the file's bytes at position 0 |
| Nio.FileChannel.Position | src/main/java/kohgylw/kiftd/server/util/RangeFileStreamWriter.java:112 | `position(p)` sets the read position, past the end allowed |
| Nio.FileChannel.Read | src/main/java/kohgylw/kiftd/server/util/RangeFileStreamWriter.java:114 | `read` gives 0 without room, -1 at or past the end, otherwise min(room, bytes left). It copies those file bytes in at the buffer's position |
| RangeHeader.ParseRange | src/main/java/kohgylw/kiftd/server/util/RangeFileStreamWriter.java:72-89 | an unrecognised header gives the whole-file plan. Otherwise: `rangeBytes` is the header with `bytes=` removed; `hasEnd` holds iff it does not end in '-'; the start is a non-negative long; the length is `L - start` open-ended, `end - start + 1` wrapped closed. Failures happen only for recognised headers |
| RangeHeader.ParseOpenEnded | src/main/java/kohgylw/kiftd/server/util/RangeFileStreamWriter.java:75-79 | an open-ended plan keeps the text, has a non-negative start and length `L - start`; its only failure is NumberFormatException |
| RangeHeader.ParseClosed | src/main/java/kohgylw/kiftd/server/util/RangeFileStreamWriter.java:80-86 | a closed plan keeps the untrimmed text, has a non-negative start, a long end and length `end - start + 1` as a long. StringIndexOutOfBounds is raised exactly when there is no '-' |
| RangeHeader.ContentRangeValue | src/main/java/kohgylw/kiftd/server/util/RangeFileStreamWriter.java:91-101 | a `Content-Range` exists exactly when the start is not 0; it begins with `bytes ` and ends with `/L` |
| RangeHeader.SizeHeaders | src/main/java/kohgylw/kiftd/server/util/RangeFileStreamWriter.java:90-101 | `Content-Length` is always added as the decimal `contentLength`; `Content-Range` is added exactly for a non-zero start; other headers are kept |
| RangeHeader.Respond | src/main/java/kohgylw/kiftd/server/util/RangeFileStreamWriter.java:54-102 | the header phase. Status 206 exactly for a recognised header; a failed parse leaves only the two base headers; otherwise `Content-Length` and, for a non-zero start, `Content-Range` are set |
| RangeHeaderFacts.OpenEndedContentRange | src/main/java/kohgylw/kiftd/server/util/RangeFileStreamWriter.java:94-96 | the open-ended `Content-Range` is `bytes N-(L-1)/L` |
| RangeHeaderFacts.ClosedContentRange | src/main/java/kohgylw/kiftd/server/util/RangeFileStreamWriter.java:98-100 | the closed `Content-Range` is `bytes <rangeBytes>/L` with the untrimmed text |
| RangeHeaderFacts.StripsPrefixOnce | src/main/java/kohgylw/kiftd/server/util/RangeFileStreamWriter.java:74 | removing `bytes=` from `bytes=` + text without 'b' leaves that text |
| RangeHeaderFacts.FirstDashAfter | src/main/java/kohgylw/kiftd/server/util/RangeFileStreamWriter.java:77 | the first '-' of `digits-rest` is right after the digits |
| RangeHeaderFacts.TrimKeepsLong | src/main/java/kohgylw/kiftd/server/util/RangeFileStreamWriter.java:77 | a long's rendering is unchanged by `trim()` |
| RangeHeaderFacts.LongParsesBack | src/main/java/kohgylw/kiftd/server/util/RangeFileStreamWriter.java:77 | a long's rendering, trimmed, parses back to the long |
| RangeHeaderFacts.NoLetterInLong | src/main/java/kohgylw/kiftd/server/util/RangeFileStreamWriter.java:90 | a long's rendering has no 'b', and no '-' when non-negative |
| RangeHeaderFacts.OpenEndedParsesBack | src/main/java/kohgylw/kiftd/server/util/RangeFileStreamWriter.java:75-79 | `N-...-` parses as the open-ended range from N with length `L - N`. Its proof step OpenPlanOfLong states that a parsed start gives that plan |
| RangeHeaderFacts.OpenEndedSplitsAtFirstDash | src/main/java/kohgylw/kiftd/server/util/RangeFileStreamWriter.java:77 | the open-ended start is the trimmed text before the first '-' |
| RangeHeaderFacts.ClosedSplitsAtFirstDash | src/main/java/kohgylw/kiftd/server/util/RangeFileStreamWriter.java:82-83 | the closed start is the trimmed text before the first '-', the end the trimmed text after it |
| RangeHeaderFacts.ClosedParsesBack | src/main/java/kohgylw/kiftd/server/util/RangeFileStreamWriter.java:80-86 | `N-M` parses as the closed range N..M. Its proof steps ClosedPlanOfLongs and ClosedPlanRejects state that two parsed bounds give length `M - N + 1` as a long, and that a bound which does not parse raises NumberFormatException |
| RangeHeaderFacts.PrefixedRange | src/main/java/kohgylw/kiftd/server/util/RangeFileStreamWriter.java:72-75 | `bytes=` + text without 'b' picks the open-ended or the closed rule on that text, by its last character |
| RangeHeaderFacts.OpenEndedRoundTrip | src/main/java/kohgylw/kiftd/server/util/RangeFileStreamWriter.java:72-79 | `bytes=N-` parses back to start N, no end, length `L - N` |
| RangeHeaderFacts.ClosedRoundTrip | src/main/java/kohgylw/kiftd/server/util/RangeFileStreamWriter.java:72-86 | `bytes=N-M` parses back to N..M with length `M - N + 1` as a long |
| RangeHeaderFacts.SuffixRangeRejected | src/main/java/kohgylw/kiftd/server/util/RangeFileStreamWriter.java:80-82 | the suffix form `bytes=-N` raises NumberFormatException |
| RangeHeaderFacts.EmptyStartRejected | src/main/java/kohgylw/kiftd/server/util/RangeFileStreamWriter.java:82 | a closed range with nothing before its '-' raises NumberFormatException |
| RangeHeaderFacts.DashlessRangeRejected | src/main/java/kohgylw/kiftd/server/util/RangeFileStreamWriter.java:82 | `bytes=N` raises StringIndexOutOfBoundsException |
| RangeHeaderFacts.CommaStopsParse | src/main/java/kohgylw/kiftd/server/util/RangeFileStreamWriter.java:83 | a long followed by ',' does not parse, however trimmed |
| RangeHeaderFacts.RangeListRejected | src/main/java/kohgylw/kiftd/server/util/RangeFileStreamWriter.java:80-83 | a range list `bytes=N-M,...` not ending in '-' raises NumberFormatException |
| RangeHeaderFacts.DashedRangeIsClosed | src/main/java/kohgylw/kiftd/server/util/RangeFileStreamWriter.java:72-81 | `bytes=` + text + '-' + text not ending in '-' takes the closed branch |
| RangeHeaderFacts.OversizedStartRejected | src/main/java/kohgylw/kiftd/server/util/RangeFileStreamWriter.java:74-77 | `bytes=N-` with N too large for a long, such as `bytes=9223372036854775808-`, raises NumberFormatException |
| RangeHeaderFacts.UnparsableEndRejected | src/main/java/kohgylw/kiftd/server/util/RangeFileStreamWriter.java:83 | an end that does not parse raises NumberFormatException |
| RangeHeaderFacts.RangeListEndingInDashIsOpenEnded | src/main/java/kohgylw/kiftd/server/util/RangeFileStreamWriter.java:75-79 | a range list ending in '-' is the open-ended range from its first start |
| RangeHeaderFacts.RepeatedPrefixIgnored | src/main/java/kohgylw/kiftd/server/util/RangeFileStreamWriter.java:74 | `bytes=bytes=t` parses like `bytes=t`, since every `bytes=` is removed |
| RangeStream.Remaining | src/main/java/kohgylw/kiftd/server/util/RangeFileStreamWriter.java:110-119 | the file's bytes from `start`: `L - start` of them, in order, or none past the end |
| RangeStream.RoundUp | src/main/java/kohgylw/kiftd/server/util/RangeFileStreamWriter.java:125-128 | the bytes read in whole buffers to reach `c`: 0 for `c <= 0`, else at least `c` and at least one buffer, below `c + B` |
| RangeStream.RoundUpIsCeiling | src/main/java/kohgylw/kiftd/server/util/RangeFileStreamWriter.java:125-128 | RoundUp equals `ceil(c / B) * B` |
| RangeStream.AppendRead | src/main/java/kohgylw/kiftd/server/util/RangeFileStreamWriter.java:114-118 | a read no larger than the previous keeps the read sizes shrinking and adds to their sum |
| RangeStream.ShrinkingAppend | src/main/java/kohgylw/kiftd/server/util/RangeFileStreamWriter.java:114-118 | the shrinking half of AppendRead |
| RangeStream.SumAppend | src/main/java/kohgylw/kiftd/server/util/RangeFileStreamWriter.java:117 | the sum of read sizes grows by the new read |
| RangeStream.ClosedWritten | src/main/java/kohgylw/kiftd/server/util/RangeFileStreamWriter.java:120-132 | the closed loop's output is a prefix of the remaining bytes: empty for `C <= 0`; between `C` and `C + B - 1` bytes when the file holds `C`; all remaining bytes otherwise |
| RangeStream.ExtendPrefix | src/main/java/kohgylw/kiftd/server/util/RangeFileStreamWriter.java:117 | writing the file's next bytes after a prefix of the remaining bytes gives a longer prefix |
| RangeStream.OpenAndRead | src/main/java/kohgylw/kiftd/server/util/RangeFileStreamWriter.java:104-114 | fresh buffer and array of the configured size; the first read gives -1 at or past the end, else min(B, bytes left) bytes from `start` |
| RangeStream.PassOnAndRead | src/main/java/kohgylw/kiftd/server/util/RangeFileStreamWriter.java:114-118 | `flip/get/write/flip` passes on exactly the bytes last read; the next read takes at most as many |
| RangeStream.CopyToEnd | src/main/java/kohgylw/kiftd/server/util/RangeFileStreamWriter.java:110-119 | the open-ended loop writes exactly the bytes from `start` to the end. Each read is positive, at most B and at most the previous one, and the reads sum to the bytes written |
| RangeStream.CopyStep | src/main/java/kohgylw/kiftd/server/util/RangeFileStreamWriter.java:114-118 | one pass keeps the output a prefix of the remaining bytes, and it is all of them once `read` gives -1 |
| RangeStream.OpenAt | src/main/java/kohgylw/kiftd/server/util/RangeFileStreamWriter.java:104-108 | fresh cleared buffer and array of the configured size, and the channel at `start` |
| RangeStream.ReadWholeAndPassOn | src/main/java/kohgylw/kiftd/server/util/RangeFileStreamWriter.java:126-131 | a read into the cleared buffer asks for a whole buffer. `get` fails exactly when the read gave -1, and otherwise passes on the bytes read |
| RangeStream.CopyClosed | src/main/java/kohgylw/kiftd/server/util/RangeFileStreamWriter.java:120-132 | the closed loop writes ClosedWritten. It completes exactly when the file holds `contentLength` bytes from `start`; otherwise it raises IndexOutOfBoundsException |
| RangeStream.WriteRangeFileStream | src/main/java/kohgylw/kiftd/server/util/RangeFileStreamWriter.java:52-139 | the response is Respond's. A parse failure writes nothing and raises the exception; an open-ended plan writes the bytes from `start`; a closed plan writes ClosedWritten; without a recognised header the whole file is written |
| Scenarios.OpenEndedResponse | src/main/java/kohgylw/kiftd/server/util/RangeFileStreamWriter.java:75-96 | `bytes=N-` with N > 0: status 206, `Content-Length` `L - N`, `Content-Range` `bytes N-(L-1)/L` |
| Scenarios.FiveOfThirteen | src/main/java/kohgylw/kiftd/server/util/RangeFileStreamWriter.java:78 | `bytes=5-` on 13 bytes: `Content-Length: 8`, `Content-Range: bytes 5-12/13` |
| Scenarios.ClosedFromZeroHasNoContentRange | src/main/java/kohgylw/kiftd/server/util/RangeFileStreamWriter.java:91 | `bytes=0-M` gets 206 and `Content-Length` `M + 1` but no `Content-Range` |
| Scenarios.FirstTenBytes | src/main/java/kohgylw/kiftd/server/util/RangeFileStreamWriter.java:84 | `bytes=0-9`: `Content-Length: 10` and no `Content-Range` |
| Scenarios.StartPastEndDeclaresNegativeLength | src/main/java/kohgylw/kiftd/server/util/RangeFileStreamWriter.java:79 | a start past the end declares a negative `Content-Length`, and nothing is written |
| Scenarios.BackwardsRangeDeclaresNegativeLength | src/main/java/kohgylw/kiftd/server/util/RangeFileStreamWriter.java:85 | an end before the start declares a negative `Content-Length`, and the closed loop writes nothing |
| Scenarios.WholeLongRangeWrapsAround | src/main/java/kohgylw/kiftd/server/util/RangeFileStreamWriter.java:85 | `bytes=0-9223372036854775807` declares length -9223372036854775808, and nothing is written |
| Scenarios.TenBytesAskedSixtyFourWritten | src/main/java/kohgylw/kiftd/server/util/RangeFileStreamWriter.java:125-132 | with a 64-byte buffer, `bytes=0-9` on 100 bytes writes 64 bytes |
| Scenarios.FirstByteOnlyDeclared | src/main/java/kohgylw/kiftd/server/util/RangeFileStreamWriter.java:80-132 | `bytes=0-0` declares 1 byte, and the closed loop writes min(B, L) bytes |
| Scenarios.LastByteOnly | src/main/java/kohgylw/kiftd/server/util/RangeFileStreamWriter.java:75-119 | `bytes=(L-1)-` declares 1 byte, and the open-ended loop writes the last byte only |

## Left out

- The servlet API is not modelled. The request is the optional `Range` header value. The
  response is a `Response` value: content type, header map and status, with `None` for the
  container's default status.
- `URLEncoder.encode` and the `UnsupportedEncodingException` fallback (lines 63-68) are not
  modelled. The encoded file name is an opaque parameter, and the UTF-8 branch does not fail.
- The buffer size from `ConfigureReader` is a parameter `bufferSize > 0`. A size of 0 would
  make both loops run forever: `read` into a buffer with no room returns 0, never -1, so the
  open-ended loop never sees the end of the file and the closed loop never counts a byte.
- The file is a byte sequence that does not change while it is read. Failures of opening,
  positioning, reading and writing, and the `IOException` handler that swallows them, are not
  modelled.
- Closing the `FileChannel` at the end of the try-with-resources block (line 108) is not
  modelled. The channel is only read.
- `BufferedOutputStream`, `flush` and `close` are not modelled. The body is everything handed
  to `out.write`. When the closed loop raises IndexOutOfBoundsException, how much of that
  buffered body reaches the client is not modelled.
- Status 206 is set before the range is parsed, so a request whose range fails to parse still
  carries 206 in the model. What the container then sends for the escaping exception is not
  modelled.
- JavaLang.ParseLong: accepts only the ASCII digits '0'-'9'. `Character.digit` also accepts
  other Unicode decimal digits, which this model rejects.
- JavaLang.WrapLong: covers one turn of 2^64. That is all `end - start + 1` on two longs can
  need. `fileLength - startOffset` never wraps, because both are non-negative longs.
- JavaLang.RemoveAll: covers only a pattern without regular-expression metacharacters, which
  `bytes=` is.
- RangeStream.CopyToEnd: its ghost `sizes` records only the size of each read, not when each
  read happened.
