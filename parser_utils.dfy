/** `ParserUtils`: seconds to milliseconds, time windows and the legacy
    `TestStatus` strings. */
module ParserUtils {
  import opened Wrappers
  import opened Allure
  import opened Plist

  /** `MULTIPLICAND`, as a decimal. */
  const Multiplicand: real := 1000.0

  /** `BigDecimal.longValue()`: drops the fraction, rounding toward zero. */
  function TruncateTowardZero(x: real): (r: int)
    ensures 0.0 <= x ==> r as real <= x < r as real + 1.0
    ensures x < 0.0 ==> r as real - 1.0 < x <= r as real
  {
    if 0.0 <= x then x.Floor else -((-x).Floor)
  }

  /** `getTimeInMilliseconds`: null stays null; otherwise the seconds are
      multiplied by 1000 in decimal arithmetic and truncated toward zero. */
  function GetTimeInMilliseconds(timeInSeconds: Option<real>): (r: Option<int>)
    ensures r.Some? <==> timeInSeconds.Some?
    ensures timeInSeconds.Some? ==>
      var ms := timeInSeconds.value * 1000.0;
      (0.0 <= ms ==> r.value as real <= ms < r.value as real + 1.0) &&
      (ms < 0.0 ==> r.value as real - 1.0 < ms <= r.value as real)
  {
    match timeInSeconds
    case None => None
    case Some(seconds) => Some(TruncateTowardZero(seconds * Multiplicand))
  }

  /** `getTime`. Assigning `getTimeInMilliseconds(start)` to a primitive
      `long` throws when `start` is null, and the catch turns that into an
      unset time; the boxed `startMs` is never null, so the
      `Time.create(durationMs)` branch is never taken. */
  function GetTime(start: Option<real>, duration: Option<real>): (r: Time)
    ensures start.None? || duration.None? ==> r == Empty
    ensures start.Some? && duration.Some? ==>
      r.Window? &&
      GetTimeInMilliseconds(start) == Some(r.start) &&
      GetTimeInMilliseconds(duration) == Some(r.stop - r.start)
    ensures !r.DurationOnly?
  {
    if duration.Some? then
      match GetTimeInMilliseconds(start)
      case None => Empty
      case Some(startMs) =>
        var durationMs := GetTimeInMilliseconds(duration).value;
        Window(startMs, startMs + durationMs)
    else
      Empty
  }

  /** `getStatus`: a null string throws on `equals`. */
  function GetStatus(testStatus: Option<string>): (r: Outcome<Status>)
    ensures r.NullPointer? <==> testStatus.None?
    ensures r == Normal(Failed) <==> testStatus == Some("Failure")
    ensures r == Normal(Broken) <==> testStatus == Some("Error")
    ensures r == Normal(Skipped) <==> testStatus == Some("Skipped")
    ensures r != Normal(Unknown)
  {
    match testStatus
    case None => NullPointer
    case Some(s) =>
      if s == "Failure" then Normal(Failed)
      else if s == "Error" then Normal(Broken)
      else if s == "Skipped" then Normal(Skipped)
      else Normal(Passed)
  }

  /** `isFlaky`: no test is ever reported flaky. */
  function IsFlaky(testConfig: TestNode): (r: bool)
    ensures !r
  {
    false
  }

  /** Decimal arithmetic: 12.345 seconds is exactly 12345 milliseconds. */
  lemma DecimalMilliseconds()
    ensures GetTimeInMilliseconds(Some(12.345)) == Some(12345)
    ensures GetTimeInMilliseconds(Some(-0.0015)) == Some(-1)
  {
  }

  /** Converting a whole number of milliseconds to seconds and back is lossless. */
  lemma MillisecondsRoundTrip(ms: int)
    ensures GetTimeInMilliseconds(Some(ms as real / 1000.0)) == Some(ms)
  {
    assert ms as real / 1000.0 * Multiplicand == ms as real;
    assert (ms as real).Floor == ms && (-ms as real).Floor == -ms;
  }

  /** Truncation is symmetric about zero, unlike `Floor`. */
  lemma MillisecondsOfNegation(seconds: real)
    ensures GetTimeInMilliseconds(Some(-seconds)).value == -GetTimeInMilliseconds(Some(seconds)).value
  {
  }

  lemma WindowExample()
    ensures GetTime(Some(1.0), Some(2.5)) == Window(1000, 3500)
  {
  }

  /** Every non-null string other than the three markers is PASSED. */
  lemma GetStatusPassed(testStatus: Option<string>)
    ensures GetStatus(testStatus) == Normal(Passed) <==>
      testStatus.Some? && testStatus.value !in {"Failure", "Error", "Skipped"}
  {
  }
}
