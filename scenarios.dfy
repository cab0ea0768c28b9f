/** Requests of the shapes RFC 7233 describes and the responses the model gives them: the
    examples in the method's own comments, the three behaviours a reader of the RFC might
    not expect (no `Content-Range` for a start of 0, a negative `Content-Length`, the closed
    loop writing past the requested end), and the long arithmetic wrapping around. */
module Scenarios {
  import opened Wrappers
  import opened JavaLang
  import opened Nio
  import opened RangeHeader
  import opened RangeHeaderFacts
  import opened RangeStream

  /** `bytes=N-` with N > 0: status 206, `Content-Length` L - N, and the range
      `bytes N-(L-1)/L`. */
  lemma {:induction false} OpenEndedResponse(n: int, fileLength: int, encodedName: string, contentType: string)
    requires 0 < n <= LONG_MAX && 0 <= fileLength <= LONG_MAX
    ensures var d := Respond(Some(RANGE_UNIT_PREFIX + LongToString(n) + "-"), fileLength, encodedName, contentType);
            d.response.status == Some(PARTIAL_CONTENT)
            && ContentLength in d.response.headers
            && d.response.headers[ContentLength] == LongToString(fileLength - n)
            && ContentRange in d.response.headers
            && d.response.headers[ContentRange]
               == "bytes " + LongToString(n) + "-" + LongToString(fileLength - 1) + "/" + LongToString(fileLength)
  {
    var range := Some(RANGE_UNIT_PREFIX + LongToString(n) + "-");
    var plan := Plan(true, n, false, 0, fileLength - n, LongToString(n) + "-");
    var d := Respond(range, fileLength, encodedName, contentType);
    assert Recognised(range) by {
      assert RANGE_UNIT_PREFIX <= range.value;
    }
    assert d.plan == Ok(plan) by {
      OpenEndedRoundTrip(n, fileLength);
    }
    assert ContentRangeValue(plan, fileLength)
           == Some("bytes " + LongToString(n) + "-" + LongToString(fileLength - 1) + "/" + LongToString(fileLength)) by {
      OpenEndedContentRange(plan, fileLength);
    }
  }

  /** Line 78: a 13-byte file asked for `bytes=5-` answers 8 bytes, `bytes 5-12/13`. */
  lemma {:induction false} FiveOfThirteen(encodedName: string, contentType: string)
    ensures RANGE_UNIT_PREFIX + LongToString(5) + "-" == "bytes=5-"
    ensures var d := Respond(Some(RANGE_UNIT_PREFIX + LongToString(5) + "-"), 13, encodedName, contentType);
            ContentLength in d.response.headers && d.response.headers[ContentLength] == "8"
            && ContentRange in d.response.headers && d.response.headers[ContentRange] == "bytes 5-12/13"
  {
    OpenEndedResponse(5, 13, encodedName, contentType);
    FiveOfThirteenText();
  }

  /** The decimal text of the numbers in FiveOfThirteen. */
  lemma FiveOfThirteenText()
    ensures LongToString(13 - 5) == "8"
    ensures "bytes " + LongToString(5) + "-" + LongToString(13 - 1) + "/" + LongToString(13) == "bytes 5-12/13"
    ensures RANGE_UNIT_PREFIX + LongToString(5) + "-" == "bytes=5-"
  {
    assert LongToString(5) == "5";
    assert LongToString(12) == "12";
    assert LongToString(13) == "13";
  }

  /** A closed range from 0 gets status 206 but no `Content-Range`, unlike section 4.1 of
      RFC 7233 asks of a 206 response. */
  lemma {:induction false} ClosedFromZeroHasNoContentRange(m: int, fileLength: int, encodedName: string, contentType: string)
    requires IsLong(m) && 0 <= fileLength <= LONG_MAX
    ensures var d := Respond(Some(RANGE_UNIT_PREFIX + LongToString(0) + "-" + LongToString(m)), fileLength,
                             encodedName, contentType);
            d.response.status == Some(PARTIAL_CONTENT)
            && ContentLength in d.response.headers
            && d.response.headers[ContentLength] == LongToString(WrapLong(m + 1))
            && ContentRange !in d.response.headers
  {
    ClosedRoundTrip(0, m, fileLength);
  }

  /** Line 84: `bytes=0-9` declares 10 bytes, and has no `Content-Range`. */
  lemma {:induction false} FirstTenBytes(fileLength: int, encodedName: string, contentType: string)
    requires 0 <= fileLength <= LONG_MAX
    ensures RANGE_UNIT_PREFIX + LongToString(0) + "-" + LongToString(9) == "bytes=0-9"
    ensures var d := Respond(Some(RANGE_UNIT_PREFIX + LongToString(0) + "-" + LongToString(9)), fileLength,
                             encodedName, contentType);
            ContentLength in d.response.headers && d.response.headers[ContentLength] == "10"
            && ContentRange !in d.response.headers
  {
    ClosedFromZeroHasNoContentRange(9, fileLength, encodedName, contentType);
    FirstTenBytesText();
  }

  /** The decimal text of the numbers in FirstTenBytes. */
  lemma FirstTenBytesText()
    ensures RANGE_UNIT_PREFIX + LongToString(0) + "-" + LongToString(9) == "bytes=0-9"
    ensures LongToString(WrapLong(9 + 1)) == "10"
  {
    assert LongToString(0) == "0";
    assert LongToString(9) == "9";
  }

  /** An open-ended start past the end of the file declares a negative `Content-Length`;
      the loop then writes nothing. */
  lemma {:induction false} StartPastEndDeclaresNegativeLength(n: int, file: seq<bv8>, encodedName: string,
                                                               contentType: string)
    requires |file| < n <= LONG_MAX
    ensures var d := Respond(Some(RANGE_UNIT_PREFIX + LongToString(n) + "-"), |file|, encodedName, contentType);
            ContentLength in d.response.headers && d.response.headers[ContentLength][0] == '-'
            && Remaining(file, n) == []
  {
    OpenEndedResponse(n, |file|, encodedName, contentType);
  }

  /** A closed range whose end is before its start declares a negative `Content-Length`,
      and the closed loop writes nothing. */
  lemma {:induction false} BackwardsRangeDeclaresNegativeLength(n: int, m: int, file: seq<bv8>, bufferSize: nat,
                                                                 encodedName: string, contentType: string)
    requires 0 <= m && m + 1 < n <= LONG_MAX && |file| <= LONG_MAX && bufferSize > 0
    ensures var d := Respond(Some(RANGE_UNIT_PREFIX + LongToString(n) + "-" + LongToString(m)), |file|,
                             encodedName, contentType);
            d.plan.Ok? && d.plan.value.contentLength == m - n + 1 < 0
            && ContentLength in d.response.headers && d.response.headers[ContentLength][0] == '-'
            && ClosedWritten(file, n, d.plan.value.contentLength, bufferSize) == []
  {
    ClosedRoundTrip(n, m, |file|);
  }

  /** `end - start + 1` is a Java long: `bytes=0-9223372036854775807` declares a length of
      -9223372036854775808, and nothing is written. */
  lemma {:induction false} WholeLongRangeWrapsAround(file: seq<bv8>, bufferSize: nat)
    requires |file| <= LONG_MAX && bufferSize > 0
    ensures var plan := ParseRange(Some(RANGE_UNIT_PREFIX + LongToString(0) + "-" + LongToString(LONG_MAX)), |file|);
            plan.Ok? && plan.value.contentLength == LONG_MIN
            && ClosedWritten(file, 0, plan.value.contentLength, bufferSize) == []
  {
    ClosedRoundTrip(0, LONG_MAX, |file|);
  }

  /** With a 64-byte buffer, `bytes=0-9` on a 100-byte file writes 64 bytes, not 10: the
      closed loop only checks its count after a whole buffer has been written. */
  lemma {:induction false} TenBytesAskedSixtyFourWritten(file: seq<bv8>)
    requires |file| == 100
    ensures var plan := ParseRange(Some(RANGE_UNIT_PREFIX + LongToString(0) + "-" + LongToString(9)), |file|);
            plan.Ok? && plan.value.contentLength == 10
            && |ClosedWritten(file, plan.value.startOffset, plan.value.contentLength, 64)| == 64
  {
    ClosedRoundTrip(0, 9, |file|);
    assert RoundUp(10, 64) == 64;
  }

  /** `bytes=0-0` declares one byte, but the closed loop writes a whole buffer (or the whole
      file, if shorter). */
  lemma {:induction false} FirstByteOnlyDeclared(file: seq<bv8>, bufferSize: nat)
    requires 0 < |file| <= LONG_MAX && bufferSize > 0
    ensures var plan := ParseRange(Some(RANGE_UNIT_PREFIX + LongToString(0) + "-" + LongToString(0)), |file|);
            plan.Ok? && plan.value.hasEnd && plan.value.contentLength == 1
            && ClosedWritten(file, plan.value.startOffset, plan.value.contentLength, bufferSize)
               == file[..Min(bufferSize, |file|)]
  {
    ClosedRoundTrip(0, 0, |file|);
    assert RoundUp(1, bufferSize) == bufferSize;
  }

  /** `bytes=(L-1)-` declares one byte, and the open-ended loop writes the last byte. */
  lemma {:induction false} LastByteOnly(file: seq<bv8>, encodedName: string, contentType: string)
    requires 0 < |file| <= LONG_MAX
    ensures var d := Respond(Some(RANGE_UNIT_PREFIX + LongToString(|file| - 1) + "-"), |file|,
                             encodedName, contentType);
            d.plan.Ok? && !d.plan.value.hasEnd && d.plan.value.startOffset == |file| - 1
            && d.plan.value.contentLength == 1
            && ContentLength in d.response.headers && d.response.headers[ContentLength] == LongToString(1)
    ensures Remaining(file, |file| - 1) == [file[|file| - 1]]
  {
    var n := |file| - 1;
    var d := Respond(Some(RANGE_UNIT_PREFIX + LongToString(n) + "-"), |file|, encodedName, contentType);
    assert d.plan == Ok(Plan(true, n, false, 0, 1, LongToString(n) + "-")) by {
      OpenEndedRoundTrip(n, |file|);
    }
    assert file[n..] == [file[n]];
  }
}
