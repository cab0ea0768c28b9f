/** The decision half of `writeRangeFileStream`: which range the `Range` request header
    asks for, and the status and headers the response gets before any byte is sent. */
module RangeHeader {
  import opened Wrappers
  import opened JavaLang

  const RANGE_UNIT_PREFIX: string := "bytes="
  const PARTIAL_CONTENT: int := 206

  /** The Java exceptions that end the request while the range is being parsed. */
  datatype Fault =
    | NumberFormat            // Long.parseLong on a start or end that is not a long
    | StringIndexOutOfBounds  // substring(0, -1): a closed range without any '-'
    | IndexOutOfBounds        // buffer.get(buf, 0, -1): the file ended inside a closed range

  /** The method's locals once the range is parsed: whether a range was recognised
      (status 206), `startOffset`, `hasEnd`, `endOffset`, `contentLength`, and
      `rangeBytes`, the header with every `bytes=` removed (empty when unrecognised). */
  datatype Plan = Plan(partial: bool, startOffset: int, hasEnd: bool, endOffset: int,
                       contentLength: int, rangeBytes: string)

  /** The response headers the writer sets with `setHeader`. */
  datatype Header = ContentDisposition | AcceptRanges | ContentLength | ContentRange

  /** A response as far as the writer sets it: the content type, the headers set with
      `setHeader`, and the status, `None` where the writer leaves the servlet's default
      (200) untouched. */
  datatype Response = Response(contentType: string, headers: map<Header, string>,
                               status: Option<int>)

  /** The response after the header phase, and the parsed range or the exception. */
  datatype Decision = Decision(response: Response, plan: Result<Plan, Fault>)

  /** The writer takes the range branch only for a `Range` header starting with `bytes=`. */
  predicate Recognised(range: Option<string>)
  {
    range.Some? && RANGE_UNIT_PREFIX <= range.value
  }

  /** Without a recognised range the whole file is sent from offset 0. */
  function FullPlan(fileLength: int): Plan
  {
    Plan(false, 0, false, 0, fileLength, "")
  }

  /** Lines 72-89: strip `bytes=`, then `N-` is open-ended (`fileLength - N` bytes) and
      anything else is closed (`M - N + 1` bytes, in `long` arithmetic); N is the trimmed
      text before the first '-', M the trimmed text after it. */
  function ParseRange(range: Option<string>, fileLength: int): (r: Result<Plan, Fault>)
    requires 0 <= fileLength <= LONG_MAX
    ensures !Recognised(range) ==> r == Ok(FullPlan(fileLength))
    ensures r.Ok? ==> r.value.partial == Recognised(range)
    ensures r.Ok? ==> 0 <= r.value.startOffset <= LONG_MAX && IsLong(r.value.contentLength)
    ensures r.Ok? && r.value.partial ==>
              r.value.rangeBytes == RemoveAll(range.value, RANGE_UNIT_PREFIX)
              && (r.value.hasEnd <==> !EndsWith(r.value.rangeBytes, '-'))
    ensures r.Ok? && !r.value.hasEnd ==> r.value.contentLength == fileLength - r.value.startOffset
    ensures r.Ok? && r.value.hasEnd ==>
              IsLong(r.value.endOffset)
              && r.value.contentLength == WrapLong(r.value.endOffset - r.value.startOffset + 1)
    ensures r.Err? ==> Recognised(range)
  {
    if !Recognised(range) then Ok(FullPlan(fileLength))
    else
      var rangeBytes := RemoveAll(range.value, RANGE_UNIT_PREFIX);
      if EndsWith(rangeBytes, '-') then ParseOpenEnded(rangeBytes, fileLength)
      else ParseClosed(rangeBytes)
  }

  /** Lines 75-79: `N-`, where N is the trimmed text before the first '-'. */
  function ParseOpenEnded(rangeBytes: string, fileLength: int): (r: Result<Plan, Fault>)
    requires EndsWith(rangeBytes, '-') && 0 <= fileLength <= LONG_MAX
    ensures r.Ok? ==> r.value.partial && !r.value.hasEnd && r.value.rangeBytes == rangeBytes
    ensures r.Ok? ==> 0 <= r.value.startOffset <= LONG_MAX
                      && r.value.contentLength == fileLength - r.value.startOffset
    ensures r.Err? ==> r.error == NumberFormat
  {
    var dash := IndexOf(rangeBytes, '-');
    TrimKeepsOut(rangeBytes[..dash], '-');
    OpenPlan(ParseLong(Trim(rangeBytes[..dash])), rangeBytes, fileLength)
  }

  /** Lines 77-79: the start must parse; the length is what the file holds from it on. */
  function OpenPlan(start: Option<int>, rangeBytes: string, fileLength: int): (r: Result<Plan, Fault>)
  {
    if start.None? then Err(NumberFormat)
    else Ok(Plan(true, start.value, false, 0, fileLength - start.value, rangeBytes))
  }

  /** Lines 80-85: N-M, where N is the trimmed text before the first '-' and M the
      trimmed text after it; without any '-' the first `substring` throws. */
  function ParseClosed(rangeBytes: string): (r: Result<Plan, Fault>)
    ensures r.Ok? ==> r.value.partial && r.value.hasEnd && r.value.rangeBytes == rangeBytes
    ensures r.Ok? ==> 0 <= r.value.startOffset <= LONG_MAX && IsLong(r.value.endOffset)
    ensures r.Ok? ==> r.value.contentLength == WrapLong(r.value.endOffset - r.value.startOffset + 1)
    ensures r.Err? ==> (r.error == StringIndexOutOfBounds <==> '-' !in rangeBytes)
    ensures '-' !in rangeBytes ==> r == Err(StringIndexOutOfBounds)
    ensures r.Err? ==> r.error != IndexOutOfBounds
  {
    var dash := IndexOf(rangeBytes, '-');
    if dash < 0 then Err(StringIndexOutOfBounds)
    else
      TrimKeepsOut(rangeBytes[..dash], '-');
      ClosedPlan(ParseLong(Trim(rangeBytes[..dash])), ParseLong(Trim(rangeBytes[dash + 1..])), rangeBytes)
  }

  /** Lines 83-85: both bounds must parse; the length is `end - start + 1` as a long. */
  function ClosedPlan(start: Option<int>, end: Option<int>, rangeBytes: string): (r: Result<Plan, Fault>)
    requires start.Some? ==> IsLong(start.value)
    requires end.Some? ==> IsLong(end.value)
  {
    if start.None? || end.None? then Err(NumberFormat)
    else Ok(Plan(true, start.value, true, end.value, WrapLong(end.value - start.value + 1), rangeBytes))
  }

  /** Lines 91-101: `Content-Range` is set only for a start other than 0; open-ended it is
      `bytes N-(L-1)/L`, closed it echoes the untrimmed `rangeBytes` as `bytes <rangeBytes>/L`. */
  function ContentRangeValue(plan: Plan, fileLength: int): (r: Option<string>)
    ensures r.Some? <==> plan.startOffset != 0
    ensures r.Some? ==> "bytes " <= r.value
    ensures r.Some? ==> var total := "/" + LongToString(fileLength);
                        |r.value| > |total| && r.value[|r.value| - |total|..] == total
  {
    if plan.startOffset == 0 then None
    else if plan.hasEnd then
      Some(SlashTotal("bytes " + plan.rangeBytes, fileLength))
    else
      Some(SlashTotal("bytes " + LongToString(plan.startOffset) + "-" + LongToString(fileLength - 1), fileLength))
  }

  /** `head` with `/` and the file length appended, the last two appends of lines 94-95 and
      98. */
  function SlashTotal(head: string, fileLength: int): (r: string)
    ensures head <= r
    ensures |r| == |head| + 1 + |LongToString(fileLength)| && r[|head|..] == "/" + LongToString(fileLength)
  {
    var r := head + "/" + LongToString(fileLength);
    assert r == head + ("/" + LongToString(fileLength));
    assert r[|head|..] == "/" + LongToString(fileLength);
    r
  }

  /** The headers set before parsing, whatever the request: lines 61-70. `encodedName` is
      the file name as `URLEncoder.encode` returns it. */
  function BaseHeaders(encodedName: string): (h: map<Header, string>)
    ensures h.Keys == {ContentDisposition, AcceptRanges}
    ensures h[AcceptRanges] == "bytes"
  {
    map[ContentDisposition := "attachment; filename=" + encodedName,
        AcceptRanges := "bytes"]
  }

  /** Lines 90-101: `Content-Length` always, `Content-Range` when `ContentRangeValue` gives one. */
  function SizeHeaders(plan: Plan, fileLength: int, base: map<Header, string>): (h: map<Header, string>)
    ensures h.Keys == base.Keys + {ContentLength} + (if plan.startOffset != 0 then {ContentRange} else {})
    ensures h[ContentLength] == LongToString(plan.contentLength)
    ensures plan.startOffset != 0 ==> h[ContentRange] == ContentRangeValue(plan, fileLength).value
    ensures forall k :: k in base && k != ContentLength && k != ContentRange ==> h[k] == base[k]
  {
    var sized := base[ContentLength := LongToString(plan.contentLength)];
    match ContentRangeValue(plan, fileLength)
    case Some(cr) => sized[ContentRange := cr]
    case None => sized
  }

  /** Lines 54-102: the response the header phase leaves behind and the parsed range. */
  function Respond(range: Option<string>, fileLength: int, encodedName: string,
                   contentType: string): (d: Decision)
    requires 0 <= fileLength <= LONG_MAX
    ensures d.plan == ParseRange(range, fileLength)
    ensures d.response.contentType == contentType
    ensures d.response.status == if Recognised(range) then Some(PARTIAL_CONTENT) else None
    ensures AcceptRanges in d.response.headers && d.response.headers[AcceptRanges] == "bytes"
    ensures ContentDisposition in d.response.headers
            && d.response.headers[ContentDisposition] == "attachment; filename=" + encodedName
    ensures d.plan.Err? ==> d.response.headers.Keys == {ContentDisposition, AcceptRanges}
    ensures d.plan.Ok? ==>
              ContentLength in d.response.headers
              && d.response.headers[ContentLength] == LongToString(d.plan.value.contentLength)
    ensures d.plan.Ok? ==>
              (ContentRange in d.response.headers <==> d.plan.value.startOffset != 0)
    ensures d.plan.Ok? && d.plan.value.startOffset != 0 ==>
              d.response.headers[ContentRange] == ContentRangeValue(d.plan.value, fileLength).value
  {
    var status := if Recognised(range) then Some(PARTIAL_CONTENT) else None;
    var base := BaseHeaders(encodedName);
    var plan := ParseRange(range, fileLength);
    var headers := if plan.Ok? then SizeHeaders(plan.value, fileLength, base) else base;
    Decision(Response(contentType, headers, status), plan)
  }
}

/** What the header phase does with the request shapes of RFC 7233 and with the malformed
    ones, stated over the functions of RangeHeader. */
module RangeHeaderFacts {
  import opened Wrappers
  import opened JavaLang
  import opened RangeHeader

  /** The open-ended `Content-Range` of lines 94-95: `bytes N-(L-1)/L`. */
  lemma OpenEndedContentRange(plan: Plan, fileLength: int)
    requires !plan.hasEnd && plan.startOffset != 0
    ensures ContentRangeValue(plan, fileLength)
            == Some("bytes " + LongToString(plan.startOffset) + "-" + LongToString(fileLength - 1)
                    + "/" + LongToString(fileLength))
  {
  }

  /** The closed `Content-Range` of line 98: the untrimmed range text between `bytes ` and
      `/L`. */
  lemma ClosedContentRange(plan: Plan, fileLength: int)
    requires plan.hasEnd && plan.startOffset != 0
    ensures ContentRangeValue(plan, fileLength)
            == Some("bytes " + plan.rangeBytes + "/" + LongToString(fileLength))
  {
  }

  /** `bytes=` followed by text without a 'b' leaves exactly that text. */
  lemma StripsPrefixOnce(t: string)
    requires 'b' !in t
    ensures RemoveAll(RANGE_UNIT_PREFIX + t, RANGE_UNIT_PREFIX) == t
  {
    RemoveAllLeading(t, RANGE_UNIT_PREFIX);
    RemoveAllWithoutFirstChar(t, RANGE_UNIT_PREFIX);
  }

  /** The first '-' of `digits + "-" + rest` is the one after `digits`. */
  lemma FirstDashAfter(digits: string, rest: string)
    requires '-' !in digits
    ensures IndexOf(digits + "-" + rest, '-') == |digits|
  {
    var t := digits + "-" + rest;
    var i := IndexOf(t, '-');
    assert t[|digits|] == '-';
  }

  /** A decimal rendering of a long has no blank at either end, so `trim` keeps it. */
  lemma TrimKeepsLong(n: int)
    ensures Trim(LongToString(n)) == LongToString(n)
  {
    var s := LongToString(n);
    assert !IsBlank(s[0]) && !IsBlank(s[|s| - 1]);
    TrimLeavesTrimmed(s);
  }

  /** A long's decimal rendering, trimmed, parses back to the long. */
  lemma LongParsesBack(n: int)
    requires IsLong(n)
    ensures ParseLong(Trim(LongToString(n))) == Some(n)
  {
    TrimKeepsLong(n);
    LongToStringRoundTrip(n);
  }

  /** Only digits and '-' occur in the rendering of a long. */
  lemma NoLetterInLong(n: int)
    ensures 'b' !in LongToString(n)
    ensures n >= 0 ==> '-' !in LongToString(n)
  {
  }

  /** Text ending in '-' that starts with a long's digits and a '-' is the open-ended range
      from that long, whatever comes between. */
  lemma OpenEndedParsesBack(n: int, rest: string, fileLength: int)
    requires 0 <= n <= LONG_MAX && 0 <= fileLength <= LONG_MAX
    requires EndsWith(LongToString(n) + "-" + rest, '-')
    ensures ParseOpenEnded(LongToString(n) + "-" + rest, fileLength)
            == Ok(Plan(true, n, false, 0, fileLength - n, LongToString(n) + "-" + rest))
  {
    NoLetterInLong(n);
    OpenEndedSplitsAtFirstDash(LongToString(n), rest, fileLength);
    LongParsesBack(n);
    OpenPlanOfLong(n, LongToString(n) + "-" + rest, fileLength);
  }

  /** A parsed start makes the open-ended plan from it. */
  lemma OpenPlanOfLong(n: int, rangeBytes: string, fileLength: int)
    ensures OpenPlan(Some(n), rangeBytes, fileLength)
            == Ok(Plan(true, n, false, 0, fileLength - n, rangeBytes))
  {
  }

  /** An open-ended range splits at its first '-': what is before it is the start. */
  lemma OpenEndedSplitsAtFirstDash(before: string, after: string, fileLength: int)
    requires '-' !in before && 0 <= fileLength <= LONG_MAX
    requires EndsWith(before + "-" + after, '-')
    ensures ParseOpenEnded(before + "-" + after, fileLength)
            == OpenPlan(ParseLong(Trim(before)), before + "-" + after, fileLength)
  {
    var t := before + "-" + after;
    FirstDashAfter(before, after);
    assert t[..|before|] == before;
  }

  /** A closed range splits at its first '-': what is before it is the start, what is after
      it (dashes included) the end. */
  lemma ClosedSplitsAtFirstDash(before: string, after: string)
    requires '-' !in before
    ensures ParseClosed(before + "-" + after)
            == ClosedPlan(ParseLong(Trim(before)), ParseLong(Trim(after)), before + "-" + after)
  {
    var t := before + "-" + after;
    FirstDashAfter(before, after);
    assert t[..|before|] == before;
    assert t[|before| + 1..] == after;
  }

  /** Two parsed bounds make the closed plan over them. */
  lemma ClosedPlanOfLongs(n: int, m: int, rangeBytes: string)
    requires IsLong(n) && IsLong(m)
    ensures ClosedPlan(Some(n), Some(m), rangeBytes)
            == Ok(Plan(true, n, true, m, WrapLong(m - n + 1), rangeBytes))
  {
  }

  /** A bound that does not parse makes the closed range fail with NumberFormatException. */
  lemma ClosedPlanRejects(start: Option<int>, end: Option<int>, rangeBytes: string)
    requires start.Some? ==> IsLong(start.value)
    requires end.Some? ==> IsLong(end.value)
    requires start.None? || end.None?
    ensures ClosedPlan(start, end, rangeBytes) == Err(NumberFormat)
  {
  }

  /** `N-M` with N and M a long's digits is the closed range N..M. */
  lemma ClosedParsesBack(n: int, m: int)
    requires 0 <= n <= LONG_MAX && IsLong(m)
    ensures ParseClosed(LongToString(n) + "-" + LongToString(m))
            == Ok(Plan(true, n, true, m, WrapLong(m - n + 1), LongToString(n) + "-" + LongToString(m)))
  {
    NoLetterInLong(n);
    ClosedSplitsAtFirstDash(LongToString(n), LongToString(m));
    LongParsesBack(n);
    LongParsesBack(m);
    ClosedPlanOfLongs(n, m, LongToString(n) + "-" + LongToString(m));
  }

  /** A header of `bytes=` and then text without a 'b' is read by the open-ended or the
      closed rule on that text, as it ends in '-' or not. */
  lemma PrefixedRange(t: string, fileLength: int)
    requires 'b' !in t && 0 <= fileLength <= LONG_MAX
    ensures ParseRange(Some(RANGE_UNIT_PREFIX + t), fileLength)
            == if EndsWith(t, '-') then ParseOpenEnded(t, fileLength) else ParseClosed(t)
  {
    StripsPrefixOnce(t);
    assert RANGE_UNIT_PREFIX <= RANGE_UNIT_PREFIX + t;
  }

  /** `bytes=N-` is read back as the open-ended range from N: `fileLength - N` bytes. */
  lemma {:induction false} OpenEndedRoundTrip(n: int, fileLength: int)
    requires 0 <= n <= LONG_MAX && 0 <= fileLength <= LONG_MAX
    ensures ParseRange(Some(RANGE_UNIT_PREFIX + LongToString(n) + "-"), fileLength)
            == Ok(Plan(true, n, false, 0, fileLength - n, LongToString(n) + "-"))
  {
    var t := LongToString(n) + "-";
    assert RANGE_UNIT_PREFIX + LongToString(n) + "-" == RANGE_UNIT_PREFIX + t;
    assert t == LongToString(n) + "-" + "";
    assert EndsWith(t, '-');
    NoLetterInLong(n);
    PrefixedRange(t, fileLength);
    OpenEndedParsesBack(n, "", fileLength);
  }

  /** `bytes=N-M` is read back as the closed range N..M: `M - N + 1` bytes as a long. */
  lemma {:induction false} ClosedRoundTrip(n: int, m: int, fileLength: int)
    requires 0 <= n <= LONG_MAX && IsLong(m) && 0 <= fileLength <= LONG_MAX
    ensures ParseRange(Some(RANGE_UNIT_PREFIX + LongToString(n) + "-" + LongToString(m)), fileLength)
            == Ok(Plan(true, n, true, m, WrapLong(m - n + 1), LongToString(n) + "-" + LongToString(m)))
  {
    var t := LongToString(n) + "-" + LongToString(m);
    NoLetterInLong(n);
    NoLetterInLong(m);
    assert RANGE_UNIT_PREFIX + LongToString(n) + "-" + LongToString(m) == RANGE_UNIT_PREFIX + t;
    assert !EndsWith(t, '-');
    assert 'b' !in t;
    PrefixedRange(t, fileLength);
    ClosedParsesBack(n, m);
  }

  /** The suffix form `bytes=-N` of RFC 7233 (the last N bytes) is not understood: the text
      before the first '-' is empty and `Long.parseLong("")` throws. */
  lemma {:induction false} SuffixRangeRejected(n: int, fileLength: int)
    requires 0 <= n <= LONG_MAX && 0 <= fileLength <= LONG_MAX
    ensures ParseRange(Some(RANGE_UNIT_PREFIX + "-" + LongToString(n)), fileLength) == Err(NumberFormat)
  {
    var t := "-" + LongToString(n);
    assert RANGE_UNIT_PREFIX + "-" + LongToString(n) == RANGE_UNIT_PREFIX + t;
    assert !EndsWith(t, '-');
    NoLetterInLong(n);
    assert 'b' !in t;
    PrefixedRange(t, fileLength);
    EmptyStartRejected(LongToString(n));
  }

  /** A closed range with nothing before its first '-' fails: `Long.parseLong("")` throws. */
  lemma EmptyStartRejected(after: string)
    ensures ParseClosed("-" + after) == Err(NumberFormat)
  {
    assert "-" + after == [] + "-" + after;
    ClosedSplitsAtFirstDash([], after);
    assert Trim([]) == [];
    ClosedPlanRejects(None, ParseLong(Trim(after)), "-" + after);
  }

  /** `bytes=N` without any '-' makes the closed branch's `substring(0, -1)` throw. */
  lemma {:induction false} DashlessRangeRejected(n: int, fileLength: int)
    requires 0 <= n <= LONG_MAX && 0 <= fileLength <= LONG_MAX
    ensures ParseRange(Some(RANGE_UNIT_PREFIX + LongToString(n)), fileLength) == Err(StringIndexOutOfBounds)
  {
    var t := LongToString(n);
    NoLetterInLong(n);
    assert !EndsWith(t, '-');
    PrefixedRange(t, fileLength);
  }

  /** A long followed by a ',' and anything is not a long, however it is trimmed. */
  lemma CommaStopsParse(m: int, rest: string)
    ensures ParseLong(Trim(LongToString(m) + "," + rest)).None?
  {
    var first := LongToString(m);
    var s := first + "," + rest;
    var r := Trim(s);
    TrimIsPaddedInfix(s);
    var a := |s| - |TrimStart(s)|;
    assert s[0] == first[0];
    assert a == 0;
    assert s[|first|] == ',';
    assert |first| < |r|;
    assert r[|first|] == ',';
    ParseLongSyntax(r);
  }

  /** A list of ranges `bytes=N-M,...` that does not end in '-' is read as the closed range
      from N to the text after the first '-', which does not parse. */
  lemma {:induction false} RangeListRejected(n: int, m: int, rest: string, fileLength: int)
    requires 0 <= n <= LONG_MAX && IsLong(m) && 0 <= fileLength <= LONG_MAX
    requires 'b' !in rest && !EndsWith(LongToString(m) + "," + rest, '-')
    ensures var after := LongToString(m) + "," + rest;
            ParseRange(Some(RANGE_UNIT_PREFIX + LongToString(n) + "-" + after), fileLength) == Err(NumberFormat)
  {
    var after := LongToString(m) + "," + rest;
    assert 'b' !in after && '-' !in LongToString(n) && 'b' !in LongToString(n) by {
      NoLetterInLong(n);
      NoLetterInLong(m);
    }
    DashedRangeIsClosed(LongToString(n), after, fileLength);
    CommaStopsParse(m, rest);
    UnparsableEndRejected(LongToString(n), after);
  }

  /** A unit prefix, a dash and an end that does not finish with '-' select the closed form. */
  lemma DashedRangeIsClosed(before: string, after: string, fileLength: int)
    requires 'b' !in before && 'b' !in after && after != [] && !EndsWith(after, '-')
    requires 0 <= fileLength <= LONG_MAX
    ensures ParseRange(Some(RANGE_UNIT_PREFIX + before + "-" + after), fileLength)
            == ParseClosed(before + "-" + after)
  {
    var t := before + "-" + after;
    assert t[|t| - 1] == after[|after| - 1];
    assert RANGE_UNIT_PREFIX + before + "-" + after == RANGE_UNIT_PREFIX + t;
    PrefixedRange(t, fileLength);
  }

  /** A closed range whose end does not parse fails with NumberFormatException. */
  lemma UnparsableEndRejected(before: string, after: string)
    requires '-' !in before && ParseLong(Trim(after)).None?
    ensures ParseClosed(before + "-" + after) == Err(NumberFormat)
  {
    ClosedSplitsAtFirstDash(before, after);
    ClosedPlanRejects(ParseLong(Trim(before)), None, before + "-" + after);
  }

  /** `bytes=N-` with N a digit string whose value does not fit in a long, such as
      `bytes=9223372036854775808-`, makes `Long.parseLong` throw. */
  lemma {:induction false} OversizedStartRejected(d: string, fileLength: int)
    requires d != [] && AllDigits(d) && DigitsValue(d) > LONG_MAX
    requires 0 <= fileLength <= LONG_MAX
    ensures ParseRange(Some(RANGE_UNIT_PREFIX + d + "-"), fileLength) == Err(NumberFormat)
  {
    var t := d + "-";
    assert t == d + "-" + [];
    assert 'b' !in t && EndsWith(t, '-') by {
      assert forall k :: 0 <= k < |d| ==> t[k] == d[k] && IsDigit(d[k]);
    }
    assert RANGE_UNIT_PREFIX + d + "-" == RANGE_UNIT_PREFIX + t;
    PrefixedRange(t, fileLength);
    OpenEndedSplitsAtFirstDash(d, [], fileLength);
    TrimLeavesTrimmed(d);
    ParseLongOfDigits(d);
  }

  /** A list of ranges that ends in '-', such as `bytes=0-9,20-`, is read as the open-ended
      range from its first start: everything from N to the end of the file. */
  lemma {:induction false} RangeListEndingInDashIsOpenEnded(n: int, rest: string, fileLength: int)
    requires 0 <= n <= LONG_MAX && 0 <= fileLength <= LONG_MAX
    requires 'b' !in rest && EndsWith(rest, '-')
    ensures ParseRange(Some(RANGE_UNIT_PREFIX + LongToString(n) + "-" + rest), fileLength)
            == Ok(Plan(true, n, false, 0, fileLength - n, LongToString(n) + "-" + rest))
  {
    var t := LongToString(n) + "-" + rest;
    assert RANGE_UNIT_PREFIX + LongToString(n) + "-" + rest == RANGE_UNIT_PREFIX + t;
    assert t[|t| - 1] == rest[|rest| - 1];
    NoLetterInLong(n);
    assert 'b' !in t;
    PrefixedRange(t, fileLength);
    OpenEndedParsesBack(n, rest, fileLength);
  }

  /** Every occurrence of `bytes=` is removed, so a repeated unit prefix changes nothing. */
  lemma {:induction false} RepeatedPrefixIgnored(t: string, fileLength: int)
    requires 0 <= fileLength <= LONG_MAX
    ensures ParseRange(Some(RANGE_UNIT_PREFIX + RANGE_UNIT_PREFIX + t), fileLength)
            == ParseRange(Some(RANGE_UNIT_PREFIX + t), fileLength)
  {
    RemoveAllLeading(RANGE_UNIT_PREFIX + t, RANGE_UNIT_PREFIX);
    assert RANGE_UNIT_PREFIX + RANGE_UNIT_PREFIX + t == RANGE_UNIT_PREFIX + (RANGE_UNIT_PREFIX + t);
    assert RANGE_UNIT_PREFIX <= RANGE_UNIT_PREFIX + RANGE_UNIT_PREFIX + t;
    assert RANGE_UNIT_PREFIX <= RANGE_UNIT_PREFIX + t;
  }
}
