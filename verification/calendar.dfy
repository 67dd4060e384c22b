/** Civil dates and times of the proleptic Gregorian calendar, as Python's datetime
    module handles them, at minute precision. The parser works in one fixed zone
    (Asia/Kolkata, UTC+05:30, no daylight saving), so wall-clock arithmetic and
    instant arithmetic coincide and a zone need not be represented. */
module Calendar {

  datatype Date = Date(year: int, month: int, day: int)

  /** A civil date-time truncated to the minute. */
  datatype DateTime = DateTime(date: Date, hour: int, minute: int)

  /** datetime.MAXYEAR; datetime.MINYEAR is 1. */
  const MaxYear := 9999

  predicate IsLeapYear(y: int) {
    y % 4 == 0 && (y % 100 != 0 || y % 400 == 0)
  }

  function DaysInMonth(y: int, m: int): (r: int)
    requires 1 <= m <= 12
    ensures 28 <= r <= 31
    ensures r == 29 <==> m == 2 && IsLeapYear(y)
  {
    if m == 2 then (if IsLeapYear(y) then 29 else 28)
    else if m == 4 || m == 6 || m == 9 || m == 11 then 30
    else 31
  }

  /** A Gregorian date from year 1 on, with no upper bound on the year. */
  predicate WellFormed(d: Date) {
    d.year >= 1 && 1 <= d.month <= 12 && 1 <= d.day <= DaysInMonth(d.year, d.month)
  }

  /** What datetime.date(year, month, day) accepts without raising. */
  predicate ValidDate(d: Date) {
    WellFormed(d) && d.year <= MaxYear
  }

  predicate ValidTime(hour: int, minute: int) {
    0 <= hour <= 23 && 0 <= minute <= 59
  }

  predicate ValidDateTime(t: DateTime) {
    ValidDate(t.date) && ValidTime(t.hour, t.minute)
  }

  function DaysBeforeYear(y: int): int
    requires y >= 1
  {
    var p := y - 1;
    p * 365 + p / 4 - p / 100 + p / 400
  }

  function DaysInYear(y: int): int {
    if IsLeapYear(y) then 366 else 365
  }

  function DaysBeforeMonth(y: int, m: int): int
    requires 1 <= m <= 12
  {
    if m == 1 then 0 else DaysBeforeMonth(y, m - 1) + DaysInMonth(y, m - 1)
  }

  /** date.toordinal(): 0001-01-01 is day 1. */
  function Ordinal(d: Date): int
    requires WellFormed(d)
  {
    DaysBeforeYear(d.year) + DaysBeforeMonth(d.year, d.month) + d.day
  }

  /** date.weekday(): Monday is 0 and Sunday is 6 (0001-01-01 was a Monday). */
  function Weekday(d: Date): (r: nat)
    requires WellFormed(d)
    ensures r < 7
  {
    (Ordinal(d) + 6) % 7
  }

  /** The closed form of DaysBeforeYear grows by the length of each year. */
  lemma DaysBeforeYearStep(y: int)
    requires y >= 1
    ensures DaysBeforeYear(y + 1) == DaysBeforeYear(y) + DaysInYear(y)
  {
    var p := y - 1;
    assert y / 4 == p / 4 + (if y % 4 == 0 then 1 else 0);
    assert y / 100 == p / 100 + (if y % 100 == 0 then 1 else 0);
    assert y / 400 == p / 400 + (if y % 400 == 0 then 1 else 0);
  }

  lemma DaysBeforeDecember(y: int)
    ensures DaysBeforeMonth(y, 12) + 31 == DaysInYear(y)
  {
    assert DaysBeforeMonth(y, 2) == 31;
    assert DaysBeforeMonth(y, 3) == 31 + DaysInMonth(y, 2);
    assert DaysBeforeMonth(y, 4) == DaysBeforeMonth(y, 3) + 31;
    assert DaysBeforeMonth(y, 5) == DaysBeforeMonth(y, 4) + 30;
    assert DaysBeforeMonth(y, 6) == DaysBeforeMonth(y, 5) + 31;
    assert DaysBeforeMonth(y, 7) == DaysBeforeMonth(y, 6) + 30;
    assert DaysBeforeMonth(y, 8) == DaysBeforeMonth(y, 7) + 31;
    assert DaysBeforeMonth(y, 9) == DaysBeforeMonth(y, 8) + 31;
    assert DaysBeforeMonth(y, 10) == DaysBeforeMonth(y, 9) + 30;
    assert DaysBeforeMonth(y, 11) == DaysBeforeMonth(y, 10) + 31;
    assert DaysBeforeMonth(y, 12) == DaysBeforeMonth(y, 11) + 30;
  }

  /** The calendar day after `d` (date + timedelta(days=1)). */
  function NextDay(d: Date): (r: Date)
    requires WellFormed(d)
    ensures WellFormed(r)
    ensures Ordinal(r) == Ordinal(d) + 1
  {
    if d.day < DaysInMonth(d.year, d.month) then
      Date(d.year, d.month, d.day + 1)
    else if d.month < 12 then
      Date(d.year, d.month + 1, 1)
    else
      DaysBeforeYearStep(d.year);
      DaysBeforeDecember(d.year);
      Date(d.year + 1, 1, 1)
  }

  /** date + timedelta(days=n), before the check against MaxYear. */
  function AddDays(d: Date, n: nat): (r: Date)
    requires WellFormed(d)
    ensures WellFormed(r)
    ensures Ordinal(r) == Ordinal(d) + n
    ensures r.year >= d.year
    decreases n
  {
    if n == 0 then d else AddDays(NextDay(d), n - 1)
  }

  /** Adding days moves the weekday forward cyclically. */
  lemma AddDaysWeekday(d: Date, n: nat)
    requires WellFormed(d)
    ensures Weekday(AddDays(d, n)) == (Weekday(d) + n) % 7
  {
    var o := Ordinal(d) + 6;
    var q := o / 7;
    assert o + n == 7 * q + (o % 7 + n);
    ModSeven(q, o % 7 + n);
  }

  lemma ModSeven(q: int, x: int)
    ensures (7 * q + x) % 7 == x % 7
  {
  }

  /** Minutes elapsed since 0001-01-01 00:00: the order Python compares datetimes by. */
  function Stamp(t: DateTime): int
    requires WellFormed(t.date)
  {
    (Ordinal(t.date) - 1) * 1440 + t.hour * 60 + t.minute
  }

  /** t + timedelta(minutes=n), before the check against MaxYear. */
  function AddMinutes(t: DateTime, n: nat): (r: DateTime)
    requires WellFormed(t.date) && ValidTime(t.hour, t.minute)
    ensures WellFormed(r.date) && ValidTime(r.hour, r.minute)
    ensures Stamp(r) == Stamp(t) + n
  {
    var total := t.hour * 60 + t.minute + n;
    var rest := total % 1440;
    DateTime(AddDays(t.date, total / 1440), rest / 60, rest % 60)
  }
}
