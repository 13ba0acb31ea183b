/**
 The retry decisions: which statuses are transient, how long a jittered pause may be, and what a Retry-After header
 asks for. Every SDK computes the same bounds and makes the same decision on the same header.

 Times are milliseconds. A header is taken without the blanks around it. Reading an HTTP-date needs a clock and a
 calendar, so its delay is a parameter: None when the text is not an HTTP-date either.
 */
module RetryPolicy {
  import opened Results
  import opened Utf16
  import opened JsonNumbers
  import Decimals

  predicate RetryableStatus(status: int) {
    status == 429 || status == 500 || status == 502 || status == 503 || status == 504
  }

  // --- Jitter bounds -------------------------------------------------------------------------------------------

  function Min(a: int, b: int): int {
    if a < b then a else b
  }

  function Max(a: int, b: int): int {
    if a < b then b else a
  }

  function Pow2(n: nat): (p: nat)
    ensures p >= 1
  {
    if n == 0 then 1 else 2 * Pow2(n - 1)
  }

  /** The documented bound before one-indexed retry n: 100 ms doubling without limit, capped at one second. */
  function DelayBound(n: nat): nat
    requires n >= 1
  {
    Min(100 * Pow2(n - 1), 1000)
  }

  /** Go: two clamps around a shift. */
  function GoRetryMaximum(attempt: int): nat {
    if attempt <= 1 then 100
    else if attempt >= 5 then 1000
    else 100 * Pow2(attempt - 1)
  }

  /** Python and .NET: clamp the retry number to 1..5, then double, then cap. */
  function PythonUpperBound(retry: int): nat {
    Min(100 * Pow2(Min(Max(retry, 1), 5) - 1), 1000)
  }

  /** Java: shift by the clamped exponent, then cap. */
  function JavaDelayBound(retry: int): nat {
    var exponent := Min(Max(retry, 1), 5) - 1;
    Min(100 * Pow2(exponent), 1000)
  }

  /** Node.js: clamp the exponent itself to 0..4. */
  function NodeDelayBound(retry: int): nat {
    Min(100 * Pow2(Min(Max(retry, 1) - 1, 4)), 1000)
  }

  lemma {:induction false} Pow2Grows(n: nat)
    requires n >= 4
    ensures Pow2(n) >= 16
  {
    if n == 4 {
      assert Pow2(4) == 2 * Pow2(3) == 4 * Pow2(2) == 8 * Pow2(1);
    } else {
      Pow2Grows(n - 1);
    }
  }

  /** The clamped and shifted forms all equal the documented bound, for every retry. */
  lemma BoundsAgree(n: nat)
    requires n >= 1
    ensures GoRetryMaximum(n) == PythonUpperBound(n) == JavaDelayBound(n) == NodeDelayBound(n) == DelayBound(n)
    ensures DelayBound(n) == if n == 1 then 100 else if n == 2 then 200 else if n == 3 then 400
                             else if n == 4 then 800 else 1000
  {
    Pow2Grows(4);
    assert Pow2(1) == 2 && Pow2(2) == 2 * Pow2(1) && Pow2(3) == 2 * Pow2(2);
    if n >= 5 {
      Pow2Grows(n - 1);
    }
  }

  // --- Retry-After ---------------------------------------------------------------------------------------------

  const MAXIMUM_RETRY_AFTER := 5000

  /** What a header asks for: nothing usable, a delay, or more than any limit. */
  datatype RetryAfter = Absent | After(delay: nat) | Unbounded

  function ParseRetryAfter(value: Text, date: Option<nat>): RetryAfter {
    if value == [] then Absent
    else if AllDigits(value) then if |value| > 9 then Unbounded else After(1000 * DigitsValue(value))
    else match date
      case None => Absent
      case Some(delay) => After(delay)
  }

  /** The server asks for no longer a pause than a caller should wait. */
  predicate Acceptable(r: RetryAfter) {
    match r
    case Absent => true
    case After(delay) => delay <= MAXIMUM_RETRY_AFTER
    case Unbounded => false
  }

  function Requested(r: RetryAfter): nat {
    if r.After? then r.delay else 0
  }

  lemma {:induction false} DigitsValueBound(s: Text)
    requires AllDigits(s)
    ensures DigitsValue(s) < Decimals.Pow10(|s|)
  {
    if s != [] {
      DigitsValueBound(s[..|s| - 1]);
    }
  }

  /** Nine digits of seconds are less than 10^9. */
  lemma NineDigits(s: Text)
    requires AllDigits(s) && |s| <= 9
    ensures DigitsValue(s) < 1_000_000_000
  {
    DigitsValueBound(s);
    Decimals.Pow10Monotone(|s|, 9);
    assert Decimals.Pow10(9) == 1_000_000_000 by {
      assert Decimals.Pow10(3) == 1000;
      assert Decimals.Pow10(6) == 1000 * Decimals.Pow10(3);
      assert Decimals.Pow10(9) == 1000 * Decimals.Pow10(6);
    }
  }

  /** Go's time.Duration and Java's long. */
  newtype int64 = x: int | -0x8000_0000_0000_0000 <= x < 0x8000_0000_0000_0000

  const MAX_INT64: int64 := 0x7FFF_FFFF_FFFF_FFFF
  const NANOSECONDS_PER_SECOND: int64 := 1_000_000_000

  /** Go: nanoseconds in 64 bits, and whether the header was usable. A date's delay is taken as nanoseconds. */
  function GoRetryAfter(value: Text, date: Option<int64>): (r: (int64, bool))
    requires date.Some? ==> date.value >= 0
    ensures r.0 >= 0
  {
    if value == [] then (0, false)
    else if AllDigits(value) then
      if |value| > 9 then (MAX_INT64, true)
      else
        NineDigits(value);
        (DigitsValue(value) as int64 * NANOSECONDS_PER_SECOND, true)
    else match date
      case None => (0, false)
      case Some(delay) => (delay, true)
  }

  /** Java: milliseconds in 64 bits. */
  function JavaRetryAfter(value: Text, date: Option<int64>): (r: Option<int64>)
    requires date.Some? ==> date.value >= 0
    ensures r.Some? ==> r.value >= 0
  {
    if value == [] then None
    else if AllDigits(value) then
      if |value| > 9 then Some(MAX_INT64)
      else
        NineDigits(value);
        Some(DigitsValue(value) as int64 * 1000)
    else date
  }

  /**
   The 64-bit forms lose nothing: no product overflows, the cap refuses exactly the same headers, and an honoured delay
   is the same length.
   */
  lemma FixedWidthAgrees(value: Text, millis: Option<int64>)
    requires millis.Some? ==> 0 <= millis.value <= MAX_INT64 / 1_000_000
    ensures var spec := ParseRetryAfter(value, if millis.Some? then Some(millis.value as int) else None);
      var nanos := if millis.Some? then Some(millis.value * 1_000_000) else None;
      var (go, present) := GoRetryAfter(value, nanos);
      var java := JavaRetryAfter(value, millis);
      && (present && go > 5 * NANOSECONDS_PER_SECOND <==> !Acceptable(spec))
      && (java.Some? && java.value > 5000 <==> !Acceptable(spec))
      && (Acceptable(spec) ==>
            && present == spec.After? == java.Some?
            && go as int == 1_000_000 * Requested(spec)
            && (java.Some? ==> java.value as int == Requested(spec)))
  {
  }

  /**
   Digits are meant as a number of seconds, but the length test alone decides for more than nine of them. The cap is
   applied to the number meant exactly when there are at most nine digits or the number is above the cap anyway.
   */
  lemma LengthTestIsExact(value: Text, date: Option<nat>)
    requires value != [] && AllDigits(value)
    ensures (Acceptable(ParseRetryAfter(value, date)) <==> DigitsValue(value) <= 5)
       <==> |value| <= 9 || DigitsValue(value) > 5
  {
  }

  /** One second written with nine leading zeros is refused. */
  lemma PaddedSecondIsRefused()
    ensures var value := Zeros(9) + [0x31];
      AllDigits(value) && DigitsValue(value) == 1 && !Acceptable(ParseRetryAfter(value, None))
  {
    assert DigitsValue([0x31]) == 10 * DigitsValue([0x31][..0]) + 1;
    LeadingZeros(9, [0x31]);
  }
}
