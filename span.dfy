/**
 * The two time-span helpers of the plotting script: turning a span token such
 * as "2m" into a number of days, and days into seconds.
 */
module Span {

  /** The Python exceptions `str_to_days` can raise on a malformed token. */
  datatype SpanError =
    | IndexError   // the token has fewer than two characters
    | ValueError   // the first character is not a decimal digit

  datatype Result<T> = Ok(value: T) | Err(error: SpanError)

  const SecondsPerDay: real := 86400.0

  /** Days to seconds. */
  function DaysToUnixTimestamp(days: real): (seconds: real)
    ensures seconds == days * SecondsPerDay
    ensures seconds / SecondsPerDay == days
  {
    days * 24.0 * 60.0 * 60.0
  }

  predicate IsDigit(c: char) {
    '0' <= c <= '9'
  }

  /** `int(c)` for a one-character string. */
  function DigitValue(c: char): (d: nat)
    requires IsDigit(c)
    ensures d < 10
    ensures DigitChar(d) == c
  {
    c as int - '0' as int
  }

  function DigitChar(d: nat): (c: char)
    requires d < 10
    ensures IsDigit(c)
  {
    ('0' as int + d) as char
  }

  /** The number of days one unit stands for: an hour, a day, a week, a
      thirty-day month, and for every other letter a 365-day year. */
  function DaysPerUnit(unit: char): (days: real)
    ensures 1.0 / 24.0 <= days <= 365.0
  {
    match unit
    case 'h' => 1.0 / 24.0
    case 'd' => 1.0
    case 'w' => 7.0
    case 'm' => 30.0
    case _ => 365.0
  }

  /**
   * Parses a span token. Only the first character is read as the multiplier
   * and only the second as the unit; anything after them is ignored.
   * The tuple `int(s[0]), s[1]` is evaluated left to right, so an empty token
   * is an index error, a non-digit first character a value error, and a
   * one-digit token an index error.
   */
  function StrToDays(s: string): (r: Result<real>)
    ensures r.Ok? <==> |s| >= 2 && IsDigit(s[0])
    ensures r.Err? && |s| > 0 && !IsDigit(s[0]) ==> r.error == ValueError
    ensures r.Err? && (|s| == 0 || IsDigit(s[0])) ==> r.error == IndexError
    ensures r.Ok? ==> r.value == DigitValue(s[0]) as real * DaysPerUnit(s[1])
    ensures r.Ok? ==> 0.0 <= r.value <= 9.0 * 365.0
  {
    if |s| == 0 then Err(IndexError)
    else if !IsDigit(s[0]) then Err(ValueError)
    else if |s| == 1 then Err(IndexError)
    else
      var multiplier, timespan := DigitValue(s[0]), s[1];
      if timespan == 'h' then Ok(multiplier as real / 24.0)
      else if timespan == 'd' then Ok(multiplier as real)
      else if timespan == 'w' then Ok(multiplier as real * 7.0)
      else if timespan == 'm' then Ok(multiplier as real * 30.0)
      else Ok(multiplier as real * 365.0)
  }

  /** The token a caller writes for `d` units. */
  function FormatSpan(d: nat, unit: char): (s: string)
    requires d < 10
    ensures |s| == 2
  {
    [DigitChar(d), unit]
  }

  /** Formatting a one-digit span and parsing it back gives `d` units worth of
      days, whatever follows the token. */
  lemma SpanRoundTrip(d: nat, unit: char, rest: string)
    requires d < 10
    ensures StrToDays(FormatSpan(d, unit) + rest) == Ok(d as real * DaysPerUnit(unit))
  {
  }

  /** Only the first two characters matter. */
  lemma StrToDaysReadsTwoCharacters(s: string, t: string)
    requires |s| >= 2 && |t| >= 2 && s[..2] == t[..2]
    ensures StrToDays(s) == StrToDays(t)
  {
  }

  /** Worked examples; "10d" reads the digit 1 and the unit '0', so one year. */
  lemma SpanExamples()
    ensures StrToDays("2m") == Ok(60.0)
    ensures StrToDays("1y") == Ok(365.0)
    ensures StrToDays("3h") == Ok(0.125)
    ensures StrToDays("2w") == Ok(14.0)
    ensures StrToDays("1d") == Ok(1.0)
    ensures StrToDays("10d") == Ok(365.0)
    ensures StrToDays("d") == Err(ValueError)
    ensures StrToDays("5") == Err(IndexError)
    ensures StrToDays("") == Err(IndexError)
  {
  }

  /** Seconds grow with days, and a sum of spans converts piece by piece. */
  lemma DaysToUnixTimestampMonotone(a: real, b: real)
    ensures a < b ==> DaysToUnixTimestamp(a) < DaysToUnixTimestamp(b)
    ensures DaysToUnixTimestamp(a + b) == DaysToUnixTimestamp(a) + DaysToUnixTimestamp(b)
  {
  }
}
