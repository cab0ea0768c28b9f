/** The parts of java.lang that the range writer relies on: `long` arithmetic,
    `Long.parseLong`, `"" + long`, and the `String` methods `trim`, `indexOf`,
    `startsWith`, `endsWith` and `replaceAll` (with a pattern free of regular-expression
    metacharacters, so that it matches literally). */
module JavaLang {
  import opened Wrappers

  const LONG_MIN: int := -0x8000_0000_0000_0000
  const LONG_MAX: int := 0x7FFF_FFFF_FFFF_FFFF
  const TWO_TO_THE_64: int := 0x1_0000_0000_0000_0000

  predicate IsLong(x: int) { LONG_MIN <= x <= LONG_MAX }

  /** The value a Java `long` addition or subtraction yields when the mathematical
      result is `x`: two's-complement wrap-around, which for the sum or difference of
      two longs (plus a small constant) is at most one turn of 2^64. */
  function WrapLong(x: int): (r: int)
    requires LONG_MIN - TWO_TO_THE_64 <= x <= LONG_MAX + TWO_TO_THE_64
    ensures IsLong(r)
    ensures IsLong(x) ==> r == x
    ensures r == x || r == x - TWO_TO_THE_64 || r == x + TWO_TO_THE_64
  {
    if x > LONG_MAX then x - TWO_TO_THE_64
    else if x < LONG_MIN then x + TWO_TO_THE_64
    else x
  }

  predicate IsDigit(c: char) { '0' <= c <= '9' }

  predicate AllDigits(s: string) { forall k :: 0 <= k < |s| ==> IsDigit(s[k]) }

  /** `String.trim` strips every character whose code is at most that of the space. */
  predicate IsBlank(c: char) { c <= ' ' }

  function DigitOf(d: nat): (c: char)
    requires d < 10
    ensures IsDigit(c) && c as int - '0' as int == d
  {
    ('0' as int + d) as char
  }

  /** The number a string of decimal digits denotes, read most significant first. */
  function DigitsValue(s: string): nat
    requires AllDigits(s)
  {
    if s == [] then 0 else 10 * DigitsValue(s[..|s| - 1]) + (s[|s| - 1] as int - '0' as int)
  }

  /** `Long.parseLong(s)`: an optional `-` or `+`, then one or more decimal digits, whose
      value must fit in a `long`; anything else is a NumberFormatException (`None`). */
  function ParseLong(s: string): (r: Option<int>)
    ensures s == [] ==> r.None?
    ensures r.Some? ==> IsLong(r.value)
    ensures r.Some? && '-' !in s ==> 0 <= r.value
  {
    if s == [] then None
    else
      var signed := s[0] == '-' || s[0] == '+';
      var digits := if signed then s[1..] else s;
      if digits == [] || !AllDigits(digits) then None
      else
        var v: int := DigitsValue(digits);
        if s[0] == '-' then
          (if v <= -LONG_MIN then Some(-v) else None)
        else
          (if v <= LONG_MAX then Some(v) else None)
  }

  /** The strings `Long.parseLong` accepts: an optional sign followed by at least one
      decimal digit. */
  lemma ParseLongSyntax(s: string)
    ensures ParseLong(s).Some? ==>
              AllDigits(s[1..]) && (IsDigit(s[0]) || (|s| > 1 && (s[0] == '-' || s[0] == '+')))
  {
  }

  /** On one or more decimal digits `Long.parseLong` yields their value when it is in range
      and fails otherwise; a `+` changes nothing and a `-` negates, down to `LONG_MIN`. */
  lemma ParseLongOfDigits(d: string)
    requires d != [] && AllDigits(d)
    ensures ParseLong(d) == (if DigitsValue(d) <= LONG_MAX then Some(DigitsValue(d)) else None)
    ensures ParseLong("+" + d) == ParseLong(d)
    ensures var v: int := DigitsValue(d); ParseLong("-" + d) == (if v <= -LONG_MIN then Some(-v) else None)
  {
  }

  /** Decimal digits of a natural number, without leading zeros. */
  function DecimalDigits(n: nat): (s: string)
    ensures s != [] && AllDigits(s)
    ensures |s| == 1 || s[0] != '0'
    ensures DigitsValue(s) == n
  {
    if n < 10 then [DigitOf(n)]
    else
      var prefix := DecimalDigits(n / 10);
      var s := prefix + [DigitOf(n % 10)];
      assert s[..|s| - 1] == prefix;
      s
  }

  /** `"" + n` for a `long` n (`Long.toString`). */
  function LongToString(n: int): (s: string)
    ensures s != []
    ensures s[0] == '-' <==> n < 0
    ensures AllDigits(s[1..]) && IsDigit(s[|s| - 1])
    ensures n >= 0 ==> AllDigits(s)
  {
    if n < 0 then "-" + DecimalDigits(-n) else DecimalDigits(n)
  }

  /** `Long.parseLong` reads back what `Long.toString` writes. */
  lemma {:induction false} LongToStringRoundTrip(n: int)
    requires IsLong(n)
    ensures ParseLong(LongToString(n)) == Some(n)
  {
    var s := LongToString(n);
    if n < 0 {
      assert s[1..] == DecimalDigits(-n);
    } else {
      assert s[0] != '-' && s[0] != '+';
    }
  }

  /** The suffix left after dropping the leading blanks. */
  function TrimStart(s: string): (r: string)
    ensures |r| <= |s| && r == s[|s| - |r|..]
    ensures r == [] || !IsBlank(r[0])
  {
    if s != [] && IsBlank(s[0]) then TrimStart(s[1..]) else s
  }

  /** The prefix left after dropping the trailing blanks. */
  function TrimEnd(s: string): (r: string)
    ensures |r| <= |s| && r == s[..|r|]
    ensures r == [] || !IsBlank(r[|r| - 1])
  {
    if s != [] && IsBlank(s[|s| - 1]) then TrimEnd(s[..|s| - 1]) else s
  }

  /** Only blanks are dropped at the front. */
  lemma {:induction false} TrimStartDropsBlanks(s: string)
    ensures forall k :: 0 <= k < |s| - |TrimStart(s)| ==> IsBlank(s[k])
  {
    if s != [] && IsBlank(s[0]) {
      TrimStartDropsBlanks(s[1..]);
    }
  }

  /** Only blanks are dropped at the back. */
  lemma {:induction false} TrimEndDropsBlanks(s: string)
    ensures forall k :: |TrimEnd(s)| <= k < |s| ==> IsBlank(s[k])
  {
    if s != [] && IsBlank(s[|s| - 1]) {
      TrimEndDropsBlanks(s[..|s| - 1]);
    }
  }

  /** `s` is `r` with only blanks in front of it (`a` of them) and only blanks after it. */
  predicate BlankPadded(s: string, a: int, r: string)
  {
    0 <= a <= |s| - |r| && r == s[a..a + |r|]
    && (forall k :: 0 <= k < a ==> IsBlank(s[k]))
    && (forall k :: a + |r| <= k < |s| ==> IsBlank(s[k]))
  }

  /** `String.trim`: `s` without its leading and trailing blanks. */
  function Trim(s: string): (r: string)
    ensures |r| <= |s|
    ensures r == [] || (!IsBlank(r[0]) && !IsBlank(r[|r| - 1]))
  {
    TrimEnd(TrimStart(s))
  }

  /** Blanks dropped from the front of `s`, leaving `t`, then from the back of `t`, leaving
      `r`: `r` is `s` with blanks around it. */
  lemma PaddedInStages(s: string, t: string, r: string)
    requires |t| <= |s| && t == s[|s| - |t|..] && |r| <= |t| && r == t[..|r|]
    requires forall k :: 0 <= k < |s| - |t| ==> IsBlank(s[k])
    requires forall k :: |r| <= k < |t| ==> IsBlank(t[k])
    ensures BlankPadded(s, |s| - |t|, r)
  {
    var a := |s| - |t|;
    forall k | a + |r| <= k < |s|
      ensures IsBlank(s[k])
    {
      assert s[k] == t[k - a];
    }
  }

  /** The two halves of `trim` leave an infix of `s` with only blanks around it. */
  lemma TrimStartEndPadded(s: string)
    ensures BlankPadded(s, |s| - |TrimStart(s)|, TrimEnd(TrimStart(s)))
  {
    TrimStartDropsBlanks(s);
    TrimEndDropsBlanks(TrimStart(s));
    PaddedInStages(s, TrimStart(s), TrimEnd(TrimStart(s)));
  }

  /** What `trim` returns is an infix of its argument with nothing but blanks around it. */
  lemma TrimIsPaddedInfix(s: string)
    ensures BlankPadded(s, |s| - |TrimStart(s)|, Trim(s))
  {
    TrimStartEndPadded(s);
  }

  /** Trimming brings in no character its argument lacks. */
  lemma TrimKeepsOut(s: string, c: char)
    requires c !in s
    ensures c !in Trim(s)
  {
    TrimIsPaddedInfix(s);
  }

  /** `trim` returns a string that neither starts nor ends with a blank unchanged. */
  lemma TrimLeavesTrimmed(s: string)
    requires s == [] || (!IsBlank(s[0]) && !IsBlank(s[|s| - 1]))
    ensures Trim(s) == s
  {
  }

  /** `trim` is idempotent. */
  lemma TrimIdempotent(s: string)
    ensures Trim(Trim(s)) == Trim(s)
  {
    TrimLeavesTrimmed(Trim(s));
  }

  /** `s.indexOf(c)`: the first position holding `c`, or -1. */
  function IndexOf(s: string, c: char): (r: int)
    ensures -1 <= r < |s|
    ensures r == -1 <==> c !in s
    ensures r >= 0 ==> s[r] == c && c !in s[..r]
  {
    if s == [] then -1
    else if s[0] == c then 0
    else
      var k := IndexOf(s[1..], c);
      assert s[1..][..if k < 0 then 0 else k] == s[1..if k < 0 then 1 else k + 1];
      if k < 0 then -1 else k + 1
  }

  /** `s.endsWith(c)` for a one-character suffix. */
  predicate EndsWith(s: string, c: char) { s != [] && s[|s| - 1] == c }

  /** `s.replaceAll(pat, "")` for a pattern without metacharacters: scanning from the
      left, every occurrence that does not overlap an earlier removed one is removed. */
  function RemoveAll(s: string, pat: string): (r: string)
    requires pat != []
    ensures |r| <= |s|
    decreases |s|
  {
    if s == [] then []
    else if pat <= s then RemoveAll(s[|pat|..], pat)
    else [s[0]] + RemoveAll(s[1..], pat)
  }

  /** Text that lacks the pattern's first character is left as it is. */
  lemma {:induction false} RemoveAllWithoutFirstChar(s: string, pat: string)
    requires pat != [] && pat[0] !in s
    ensures RemoveAll(s, pat) == s
    decreases |s|
  {
    if s != [] {
      assert s[0] != pat[0];
      RemoveAllWithoutFirstChar(s[1..], pat);
    }
  }

  /** A leading occurrence of the pattern is removed and the scan goes on after it. */
  lemma RemoveAllLeading(s: string, pat: string)
    requires pat != []
    ensures RemoveAll(pat + s, pat) == RemoveAll(s, pat)
  {
    assert pat <= pat + s;
    assert (pat + s)[|pat|..] == s;
  }

  /** `pat` occurs in `s` starting at index `i`. */
  predicate OccursAt(s: string, pat: string, i: int)
  {
    0 <= i && i + |pat| <= |s| && s[i..i + |pat|] == pat
  }

  ghost predicate OccursNowhere(s: string, pat: string)
  {
    forall i :: !OccursAt(s, pat, i)
  }

  /** Dropping the first character keeps the pattern absent. */
  lemma OccursNowhereTail(s: string, pat: string)
    requires s != [] && OccursNowhere(s, pat)
    ensures OccursNowhere(s[1..], pat)
  {
    forall i | OccursAt(s[1..], pat, i) ensures false {
      assert s[1..][i..i + |pat|] == s[i + 1..i + 1 + |pat|];
      assert OccursAt(s, pat, i + 1);
    }
  }

  /** Text in which the pattern occurs nowhere comes back unchanged. */
  lemma {:induction false} RemoveAllFree(s: string, pat: string)
    requires pat != [] && OccursNowhere(s, pat)
    ensures RemoveAll(s, pat) == s
    decreases |s|
  {
    if s != [] {
      assert !OccursAt(s, pat, 0);
      OccursNowhereTail(s, pat);
      RemoveAllFree(s[1..], pat);
      assert [s[0]] + s[1..] == s;
    }
  }

  /** With some text before it that does not begin an occurrence, the pattern is not a prefix. */
  lemma NotAtStart(x: string, pat: string, y: string)
    requires x != [] && pat != [] && !OccursAt(x + pat[..|pat| - 1], pat, 0)
    ensures !(pat <= x + pat + y)
  {
  }

  /** One step of the scan over a first character that does not begin an occurrence. */
  lemma RemoveAllKeepsHead(x: string, pat: string, y: string)
    requires x != [] && pat != [] && !OccursAt(x + pat[..|pat| - 1], pat, 0)
    requires RemoveAll(x[1..] + pat + y, pat) == x[1..] + RemoveAll(y, pat)
    ensures RemoveAll(x + pat + y, pat) == x + RemoveAll(y, pat)
  {
    var s := x + pat + y;
    NotAtStart(x, pat, y);
    assert s[1..] == x[1..] + pat + y;
    assert [x[0]] + x[1..] == x;
  }

  /**
   * The scan removes the leftmost occurrence: when `pat` does not start
   * inside `x` (not even overlapping into `pat` itself), the text before it
   * is kept and the scan resumes right after it.
   */
  lemma {:induction false} RemoveAllFirst(x: string, pat: string, y: string)
    requires pat != [] && OccursNowhere(x + pat[..|pat| - 1], pat)
    ensures RemoveAll(x + pat + y, pat) == x + RemoveAll(y, pat)
    decreases |x|
  {
    var p := pat[..|pat| - 1];
    if x == [] {
      assert x + pat + y == pat + y;
      RemoveAllLeading(y, pat);
    } else {
      assert OccursNowhere(x[1..] + p, pat) by {
        OccursNowhereTail(x + p, pat);
        assert (x + p)[1..] == x[1..] + p;
      }
      RemoveAllFirst(x[1..], pat, y);
      assert !OccursAt(x + p, pat, 0);
      RemoveAllKeepsHead(x, pat, y);
    }
  }
}
