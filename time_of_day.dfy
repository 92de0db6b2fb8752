/**
 * Clock times written `HH:MM` (the value of an HTML time input) and the
 * instant `Date.parse` gives them on 1970-01-01 in UTC.
 */
module TimeOfDay {
  import opened JsText

  /** A two-digit hour 00..23, a colon and a two-digit minute 00..59. */
  predicate WellFormedTime(t: string) {
    && |t| == 5
    && IsDigit(t[0]) && IsDigit(t[1]) && t[2] == ':' && IsDigit(t[3]) && IsDigit(t[4])
    && 10 * DigitValue(t[0]) + DigitValue(t[1]) < 24
    && 10 * DigitValue(t[3]) + DigitValue(t[4]) < 60
  }

  function Hours(t: string): (h: nat)
    requires WellFormedTime(t)
    ensures h < 24
  {
    10 * DigitValue(t[0]) + DigitValue(t[1])
  }

  function Minutes(t: string): (m: nat)
    requires WellFormedTime(t)
    ensures m < 60
  {
    10 * DigitValue(t[3]) + DigitValue(t[4])
  }

  /** Minutes since midnight of a well-formed time. */
  function MinuteOfDay(t: string): (k: nat)
    requires WellFormedTime(t)
    ensures k < 24 * 60
    ensures k / 60 == Hours(t) && k % 60 == Minutes(t)
  {
    Hours(t) * 60 + Minutes(t)
  }

  /** Milliseconds since the epoch of `1970-01-01T<t>:00Z`, as `Date.parse` reads it. */
  function Instant(t: string): (ms: int)
    requires WellFormedTime(t)
    ensures 0 <= ms < 24 * 60 * 60 * 1000
    ensures ms == MinuteOfDay(t) * 60000
  {
    ((Hours(t) * 60 + Minutes(t)) * 60 + 0) * 1000
  }

  /** Two instants compare as the clock times they come from. */
  lemma InstantOrder(t: string, u: string)
    requires WellFormedTime(t) && WellFormedTime(u)
    ensures Instant(t) <= Instant(u) <==> (Hours(t), Minutes(t)) == (Hours(u), Minutes(u))
                                          || Hours(t) < Hours(u)
                                          || (Hours(t) == Hours(u) && Minutes(t) < Minutes(u))
  {
  }

  /** A number 0..99 written with exactly two digits. */
  function TwoDigits(n: nat): (r: string)
    requires n < 100
    ensures |r| == 2 && IsDigit(r[0]) && IsDigit(r[1])
    ensures 10 * DigitValue(r[0]) + DigitValue(r[1]) == n
  {
    [DigitChar(n / 10), DigitChar(n % 10)]
  }

  /** The `HH:MM` text of an hour and a minute. */
  function FormatTime(h: nat, m: nat): (t: string)
    requires h < 24 && m < 60
    ensures WellFormedTime(t) && Hours(t) == h && Minutes(t) == m
  {
    TwoDigits(h) + ":" + TwoDigits(m)
  }
}
