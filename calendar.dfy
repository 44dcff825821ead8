/**
 * The proleptic Gregorian calendar as Python's `datetime.date.toordinal()` and
 * `calendar.timegm()` count it, the `%b` month names of `time.strptime` in the
 * C locale, and the two epoch constants the leap-second engine uses.
 */
module Calendar {
  import opened Wrappers
  import opened PyText

  /** UNIX time of GPS time zero, 1980-01-06T00:00:00Z. */
  const GPS0: int := 315964800

  /** Seconds from the NTP prime epoch 1900-01-01T00:00:00Z to the UNIX epoch. */
  const NTP_UNIX_SHIFT: int := 2208988800

  /** `date(1970, 1, 1).toordinal()`. */
  const EPOCH_ORDINAL: int := 719163

  const SECONDS_PER_DAY: int := 86400

  predicate IsLeapYear(y: int) {
    y % 4 == 0 && (y % 100 != 0 || y % 400 == 0)
  }

  function DaysInMonth(y: int, m: int): (n: int)
    requires 1 <= m <= 12
    ensures 28 <= n <= 31
  {
    if m == 2 then (if IsLeapYear(y) then 29 else 28)
    else if m == 4 || m == 6 || m == 9 || m == 11 then 30
    else 31
  }

  /** Days of year `y` before the first of month `m`. */
  function DaysBeforeMonth(y: int, m: int): int
    requires 1 <= m <= 12
  {
    if m == 1 then 0 else DaysBeforeMonth(y, m - 1) + DaysInMonth(y, m - 1)
  }

  /** Days before 1 January of year `y`, counted from 1 January of year 1. */
  function DaysBeforeYear(y: int): int
    requires y >= 1
  {
    var p := y - 1;
    365 * p + p / 4 - p / 100 + p / 400
  }

  predicate ValidDate(y: int, m: int, d: int) {
    1 <= y && 1 <= m <= 12 && 1 <= d <= DaysInMonth(y, m)
  }

  /** `date(y, m, d).toordinal()`: 1 January of year 1 is day 1. */
  function Ordinal(y: int, m: int, d: int): int
    requires y >= 1 && 1 <= m <= 12
  {
    DaysBeforeYear(y) + DaysBeforeMonth(y, m) + d
  }

  /** The calendar day after a valid date. */
  function NextDate(y: int, m: int, d: int): (r: (int, int, int))
    requires ValidDate(y, m, d)
    ensures ValidDate(r.0, r.1, r.2)
  {
    if d < DaysInMonth(y, m) then (y, m, d + 1)
    else if m < 12 then (y, m + 1, 1)
    else (y + 1, 1, 1)
  }

  /**
   * `calendar.timegm` of a broken-down UTC time: whole days since the UNIX
   * epoch, then hours, minutes and seconds, each added linearly (so a
   * seconds field of 60 runs over into the next minute).
   */
  function TimeGm(y: int, m: int, d: int, hh: int, mm: int, ss: int): int
    requires y >= 1 && 1 <= m <= 12
  {
    (((Ordinal(y, m, 1) - EPOCH_ORDINAL + d - 1) * 24 + hh) * 60 + mm) * 60 + ss
  }

  // ---------------------------------------------------------------- month names

  const MONTH_ABBREVIATIONS: seq<string> :=
    ["jan", "feb", "mar", "apr", "may", "jun", "jul", "aug", "sep", "oct", "nov", "dec"]

  /** The month number `%b` reads from a month abbreviation, ignoring ASCII case. */
  function MonthNumber(name: string): (r: Option<int>)
    ensures r.Some? ==> 1 <= r.value <= 12 && MONTH_ABBREVIATIONS[r.value - 1] == Lower(name)
    ensures r.None? ==> Lower(name) !in MONTH_ABBREVIATIONS
  {
    MonthFrom(Lower(name), 0)
  }

  function MonthFrom(lower: string, i: nat): (r: Option<int>)
    requires i <= 12
    ensures r.Some? ==> i + 1 <= r.value <= 12 && MONTH_ABBREVIATIONS[r.value - 1] == lower
    ensures r.None? ==> lower !in MONTH_ABBREVIATIONS[i..]
    decreases 12 - i
  {
    if i == 12 then None
    else if MONTH_ABBREVIATIONS[i] == lower then Some(i + 1)
    else MonthFrom(lower, i + 1)
  }

  // ---------------------------------------------------------------- lemmas

  /** Day 1 of the ordinal count is 1 January of year 1, as in Python. */
  lemma OrdinalOrigin()
    ensures Ordinal(1, 1, 1) == 1
  {
  }

  /** A year has 366 days when it is a leap year and 365 otherwise. */
  lemma YearLength(y: int)
    requires y >= 1
    ensures DaysBeforeYear(y + 1) - DaysBeforeYear(y) == if IsLeapYear(y) then 366 else 365
  {
    LeapDaysStep(y);
  }

  /** Each of the three leap-day counts goes up by one exactly at a multiple of its period. */
  lemma LeapDaysStep(y: int)
    ensures y / 4 - (y - 1) / 4 == if y % 4 == 0 then 1 else 0
    ensures y / 100 - (y - 1) / 100 == if y % 100 == 0 then 1 else 0
    ensures y / 400 - (y - 1) / 400 == if y % 400 == 0 then 1 else 0
    ensures y % 400 == 0 ==> y % 100 == 0
    ensures y % 100 == 0 ==> y % 4 == 0
  {
  }

  /** The months of a year add up to the length of that year. */
  lemma MonthsFillYear(y: int)
    ensures DaysBeforeMonth(y, 12) + DaysInMonth(y, 12) == if IsLeapYear(y) then 366 else 365
  {
    var f := DaysInMonth(y, 2);
    assert DaysBeforeMonth(y, 2) == 31;
    assert DaysBeforeMonth(y, 3) == 31 + f;
    assert DaysBeforeMonth(y, 4) == 62 + f;
    assert DaysBeforeMonth(y, 5) == 92 + f;
    assert DaysBeforeMonth(y, 6) == 123 + f;
    assert DaysBeforeMonth(y, 7) == 153 + f;
    assert DaysBeforeMonth(y, 8) == 184 + f;
    assert DaysBeforeMonth(y, 9) == 215 + f;
    assert DaysBeforeMonth(y, 10) == 245 + f;
    assert DaysBeforeMonth(y, 11) == 276 + f;
    assert DaysBeforeMonth(y, 12) == 306 + f;
  }

  /** The ordinal numbers consecutive calendar days consecutively, across month and year ends. */
  lemma OrdinalCountsDays(y: int, m: int, d: int)
    requires ValidDate(y, m, d)
    ensures var n := NextDate(y, m, d); Ordinal(n.0, n.1, n.2) == Ordinal(y, m, d) + 1
  {
    if d == DaysInMonth(y, m) && m == 12 {
      YearLength(y);
      MonthsFillYear(y);
    }
  }

  /** The UNIX epoch is ordinal 719163. */
  lemma EpochOrdinal()
    ensures Ordinal(1970, 1, 1) == EPOCH_ORDINAL
  {
  }

  /**
   * `calendar.timegm` counts whole days from 1970-01-01 and then the clock:
   * 86400 seconds per day number since the epoch, plus the time of day.
   */
  lemma TimeGmCountsFromEpoch(y: int, m: int, d: int, hh: int, mm: int, ss: int)
    requires ValidDate(y, m, d)
    ensures TimeGm(y, m, d, hh, mm, ss) == (Ordinal(y, m, d) - Ordinal(1970, 1, 1)) * SECONDS_PER_DAY + hh * 3600 + mm * 60 + ss
  {
    EpochOrdinal();
  }

  /** GPS time zero, 1980-01-06T00:00:00Z, is UNIX second 315964800. */
  lemma GpsEpochIsGps0()
    ensures TimeGm(1980, 1, 6, 0, 0, 0) == GPS0
  {
  }

  /** The NTP shift is the length of 1900..1969 in seconds: 1900-01-01T00:00:00Z is UNIX -2208988800. */
  lemma NtpEpochIsShift()
    ensures TimeGm(1900, 1, 1, 0, 0, 0) == -NTP_UNIX_SHIFT
  {
  }

  /**
   * A leap-second row names the inserted second as 23:59:60 of its day;
   * `timegm` turns that into midnight at the start of the next day.
   */
  lemma InsertedSecondIsNextMidnight(y: int, m: int, d: int)
    requires ValidDate(y, m, d)
    ensures var n := NextDate(y, m, d);
            TimeGm(y, m, d, 23, 59, 60) == TimeGm(n.0, n.1, n.2, 0, 0, 0)
  {
    OrdinalCountsDays(y, m, d);
    var n := NextDate(y, m, d);
    assert Ordinal(y, m, 1) + d - 1 == Ordinal(y, m, d);
    assert Ordinal(n.0, n.1, 1) + n.2 - 1 == Ordinal(n.0, n.1, n.2);
  }
}
