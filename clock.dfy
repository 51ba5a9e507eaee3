/** Clock readings as the backend sees them: naive date-times compared field by
    field, the "%Y-%W" week key the refresh job compares, and the text written
    into `record_timestamp`. */
module Clock {

  /** A naive date-time (no time zone), as returned by the clock or parsed from text. */
  datatype DateTime = DateTime(year: int, month: int, day: int,
                               hour: int, minute: int, second: int, micro: int)
  {
    /** A calendar date-time with a four-digit year. */
    predicate Valid() {
      && 1000 <= year <= 9999
      && 1 <= month <= 12
      && 1 <= day <= DaysInMonth(year, month)
      && 0 <= hour < 24 && 0 <= minute < 60 && 0 <= second < 60
      && 0 <= micro < 1000000
    }
  }

  predicate IsLeap(y: int) {
    y % 4 == 0 && (y % 100 != 0 || y % 400 == 0)
  }

  function DaysInMonth(y: int, m: int): int
    requires 1 <= m <= 12
  {
    if m == 2 then (if IsLeap(y) then 29 else 28)
    else if m == 4 || m == 6 || m == 9 || m == 11 then 30
    else 31
  }

  /** Days of year `y` before the first of month `m`. */
  function DaysBeforeMonth(y: int, m: int): int
    requires 1 <= m <= 12
  {
    [0, 31, 59, 90, 120, 151, 181, 212, 243, 273, 304, 334][m - 1]
      + (if m > 2 && IsLeap(y) then 1 else 0)
  }

  /** Days before 1 January of year `y`, counted from 1 January of year 1 (proleptic Gregorian). */
  function DaysBeforeYear(y: int): int {
    var y1 := y - 1;
    y1 * 365 + y1 / 4 - y1 / 100 + y1 / 400
  }

  /** Zero-based day of the year (C's `tm_yday`). */
  function DayOfYear(t: DateTime): (d: int)
    requires t.Valid()
    ensures 0 <= d < 365 + (if IsLeap(t.year) then 1 else 0)
  {
    DaysBeforeMonth(t.year, t.month) + t.day - 1
  }

  /** Day number with 1 January of year 1 as day 1. */
  function Ordinal(t: DateTime): int
    requires t.Valid()
  {
    DaysBeforeYear(t.year) + DayOfYear(t) + 1
  }

  /** Day of the week with Monday as 0 and Sunday as 6 (day 1 of year 1 was a Monday). */
  function Weekday(t: DateTime): (w: int)
    requires t.Valid()
    ensures 0 <= w < 7
  {
    (Ordinal(t) + 6) % 7
  }

  /** The text "%Y-%W", kept as its two numbers: the year and the week of the
      year counted from the year's first Monday, every day before that Monday
      being in week 0. This is not the ISO 8601 week. */
  datatype WeekKey = WeekKey(year: int, week: int)

  function WeekOf(t: DateTime): (k: WeekKey)
    requires t.Valid()
    ensures k.year == t.year
  {
    WeekKey(t.year, (DayOfYear(t) + 7 - Weekday(t)) / 7)
  }

  lemma WeekNumberRange(t: DateTime)
    requires t.Valid()
    ensures 0 <= WeekOf(t).week <= 53
  {
  }

  /** `a < b` on date-times: compares year, month, day, hour, minute, second and
      microsecond in that order. */
  predicate Before(a: DateTime, b: DateTime) {
    if a.year != b.year then a.year < b.year
    else if a.month != b.month then a.month < b.month
    else if a.day != b.day then a.day < b.day
    else if a.hour != b.hour then a.hour < b.hour
    else if a.minute != b.minute then a.minute < b.minute
    else if a.second != b.second then a.second < b.second
    else a.micro < b.micro
  }

  /** What `strptime("2022-09", "%Y-%W")` yields: a week number without a
      weekday is ignored, so the result is 1 January 2022 at midnight. */
  const ParsedStart: DateTime := DateTime(2022, 1, 1, 0, 0, 0, 0)

  /** Monday of week 09 of 2022, the instant the start value was evidently meant to be. */
  const IntendedStart: DateTime := DateTime(2022, 2, 28, 0, 0, 0, 0)

  lemma ParsedStartIsWeekZero()
    ensures ParsedStart.Valid() && Weekday(ParsedStart) == 5
    ensures WeekOf(ParsedStart) == WeekKey(2022, 0)
  {
  }

  lemma IntendedStartIsWeekNine()
    ensures IntendedStart.Valid() && Weekday(IntendedStart) == 0
    ensures WeekOf(IntendedStart) == WeekKey(2022, 9)
  {
    assert DaysBeforeYear(2022) == 738155;
    assert DayOfYear(IntendedStart) == 58;
    assert Ordinal(IntendedStart) + 6 == 7 * 105460;
  }

  // ---- Timestamps ---------------------------------------------------------

  function Pow10(w: nat): (p: nat)
    ensures p > 0
  {
    if w == 0 then 1 else 10 * Pow10(w - 1)
  }

  /** `n` written in decimal with exactly `w` digits, zero-padded on the left. */
  function Digits(n: nat, w: nat): (s: string)
    requires n < Pow10(w)
    ensures |s| == w
  {
    if w == 0 then [] else Digits(n / 10, w - 1) + [('0' as int + n % 10) as char]
  }

  /** The number a string of decimal digits denotes. */
  function ParseDigits(s: string): int {
    if s == [] then 0
    else ParseDigits(s[..|s| - 1]) * 10 + (s[|s| - 1] as int - '0' as int)
  }

  lemma {:induction false} DigitsRoundTrip(n: nat, w: nat)
    requires n < Pow10(w)
    ensures ParseDigits(Digits(n, w)) == n
  {
    if w > 0 {
      var d := Digits(n / 10, w - 1);
      var s := d + [('0' as int + n % 10) as char];
      assert Digits(n, w) == s;
      assert s[..|s| - 1] == d;
      DigitsRoundTrip(n / 10, w - 1);
    }
  }

  /** The corrected `record_timestamp` text, "%Y-%m-%dT%H:%M:%S.%f", which keeps
      the seconds; the store itself writes `StampAsWritten`. */
  function Stamp(t: DateTime): (s: string)
    requires t.Valid()
    ensures |s| == 26
  {
    Digits(t.year, 4) + "-" + Digits(t.month, 2) + "-" + Digits(t.day, 2)
      + "T" + Digits(t.hour, 2) + ":" + Digits(t.minute, 2) + ":" + Digits(t.second, 2)
      + "." + Digits(t.micro, 6)
  }

  /** `record_timestamp` text as the backend's format "%Y-%m-%dT%H:%M:%F.%f"
      renders it: `%F` is the whole date "%Y-%m-%d", so the date is written a
      second time where the seconds belong. */
  function StampAsWritten(t: DateTime): (s: string)
    requires t.Valid()
    ensures |s| == 34
  {
    Digits(t.year, 4) + "-" + Digits(t.month, 2) + "-" + Digits(t.day, 2)
      + "T" + Digits(t.hour, 2) + ":" + Digits(t.minute, 2) + ":"
      + Digits(t.year, 4) + "-" + Digits(t.month, 2) + "-" + Digits(t.day, 2)
      + "." + Digits(t.micro, 6)
  }

  /** Reads back the date-time a `Stamp` text denotes. */
  function ParseStamp(s: string): DateTime
    requires |s| == 26
  {
    DateTime(ParseDigits(s[0..4]), ParseDigits(s[5..7]), ParseDigits(s[8..10]),
             ParseDigits(s[11..13]), ParseDigits(s[14..16]), ParseDigits(s[17..19]),
             ParseDigits(s[20..26]))
  }

  /** The corrected timestamp determines the instant, down to the microsecond. */
  lemma StampRoundTrip(t: DateTime)
    requires t.Valid()
    ensures ParseStamp(Stamp(t)) == t
  {
    var y, mo, d := Digits(t.year, 4), Digits(t.month, 2), Digits(t.day, 2);
    var h, mi, se, mu := Digits(t.hour, 2), Digits(t.minute, 2), Digits(t.second, 2), Digits(t.micro, 6);
    var s := Stamp(t);
    assert s == y + "-" + mo + "-" + d + "T" + h + ":" + mi + ":" + se + "." + mu;
    assert s[0..4] == y;
    assert s[5..7] == mo;
    assert s[8..10] == d;
    assert s[11..13] == h;
    assert s[14..16] == mi;
    assert s[17..19] == se;
    assert s[20..26] == mu;
    DigitsRoundTrip(t.year, 4);
    DigitsRoundTrip(t.month, 2);
    DigitsRoundTrip(t.day, 2);
    DigitsRoundTrip(t.hour, 2);
    DigitsRoundTrip(t.minute, 2);
    DigitsRoundTrip(t.second, 2);
    DigitsRoundTrip(t.micro, 6);
  }

  lemma StampInjective(a: DateTime, b: DateTime)
    requires a.Valid() && b.Valid()
    ensures Stamp(a) == Stamp(b) <==> a == b
  {
    StampRoundTrip(a);
    StampRoundTrip(b);
  }

  /** The format as written loses the seconds: two instants one second apart
      get the same timestamp text. */
  lemma StampAsWrittenDropsSeconds(t: DateTime)
    requires t.Valid() && t.second < 59
    ensures t.(second := t.second + 1).Valid()
    ensures StampAsWritten(t.(second := t.second + 1)) == StampAsWritten(t)
    ensures Stamp(t.(second := t.second + 1)) != Stamp(t)
  {
    StampInjective(t, t.(second := t.second + 1));
  }
}
