/** The few operations of the local calendar that the services use:
    local midnight, the day of the week and `setHours`. */
module Calendar {
  import opened Types

  const HourMs: int := 3_600_000
  const DayMs: int := 86_400_000
  const WeekMs: int := 604_800_000

  /** Local midnight of 1970-01-05, the first Monday after the epoch. */
  const FirstMondayMs: int := 345_600_000

  /** Number of the local day that `t` falls on (floor division). */
  function LocalDay(t: Instant): (d: int)
    ensures d * DayMs <= t < d * DayMs + DayMs
  {
    t / DayMs
  }

  /** Local midnight of the day of `t`, as `new Date(y, m, d)` or `setHours(0, 0, 0, 0)` gives it. */
  function Midnight(t: Instant): (m: Instant)
    ensures m <= t < m + DayMs
    ensures m % DayMs == 0
    ensures LocalDay(m) == LocalDay(t)
  {
    LocalDay(t) * DayMs
  }

  /** `Date.getDay()`: 0 for Sunday, 1 for Monday, ..., 6 for Saturday. */
  function GetDay(t: Instant): (d: int)
    ensures 0 <= d < 7
  {
    (LocalDay(t) + 4) % 7
  }

  /** `Date.setHours(h)`: the hour of the day becomes `h`, which may be negative or
      exceed 23 and then rolls over into other days; minutes, seconds and
      milliseconds are kept. */
  function SetHours(t: Instant, h: int): (r: Instant)
    ensures LocalDay(t) * DayMs + h * HourMs <= r < LocalDay(t) * DayMs + h * HourMs + HourMs
  {
    Midnight(t) + h * HourMs + (t - Midnight(t)) % HourMs
  }

  /** Text of a decimal digit. */
  function DigitChar(d: int): (c: char)
    requires 0 <= d < 10
    ensures '0' <= c <= '9'
  {
    ('0' as int + d) as char
  }

  /** Decimal text of a natural number, most significant digit first. */
  function NatText(n: nat): (s: string)
    ensures |s| > 0
    ensures |s| == 1 <==> n < 10
    ensures forall i :: 0 <= i < |s| ==> '0' <= s[i] <= '9'
  {
    if n < 10 then [DigitChar(n)] else NatText(n / 10) + [DigitChar(n % 10)]
  }

  /** Different numbers have different decimal texts. */
  lemma {:induction false} NatTextInjective(n: nat, m: nat)
    requires NatText(n) == NatText(m)
    ensures n == m
  {
    if n >= 10 {
      var s := NatText(n);
      assert s == NatText(n / 10) + [DigitChar(n % 10)];
      assert s == NatText(m / 10) + [DigitChar(m % 10)];
      assert s[|s| - 1] == DigitChar(n % 10) == DigitChar(m % 10);
      assert s[..|s| - 1] == NatText(n / 10) == NatText(m / 10);
      NatTextInjective(n / 10, m / 10);
    }
  }

  /** The text of an instant that a saved plan's id ends with. */
  function TimestampText(t: Instant): (s: string)
    ensures |s| > 0
  {
    if t < 0 then "-" + NatText(-t) else NatText(t)
  }

  /** Different instants have different texts, so an id's timestamp part determines the instant. */
  lemma TimestampTextInjective(a: Instant, b: Instant)
    requires TimestampText(a) == TimestampText(b)
    ensures a == b
  {
    var s := TimestampText(a);
    if a < 0 {
      assert s[0] == '-';
      assert b < 0;
      assert s[1..] == NatText(-a) == NatText(-b);
      NatTextInjective(-a, -b);
    } else {
      assert '0' <= s[0] <= '9';
      assert b >= 0;
      NatTextInjective(a, b);
    }
  }
}
