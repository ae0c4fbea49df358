/**
 * Python's `datetime` arithmetic on the proleptic Gregorian calendar:
 * valid dates between years 1 and 9999, the day ordinal (`toordinal`, with
 * 0001-01-01 as day 1), the weekday (`weekday`, Monday = 0) and the
 * lexicographic comparison of naive `datetime` values.
 */
module Calendar {

  const MinYear := 1
  const MaxYear := 9999
  /** Microseconds in a day: a `datetime`'s time of day is below this. */
  const DayMicros := 86_400_000_000
  const Monday := 0
  const Saturday := 5
  const Sunday := 6

  datatype Date = Date(year: int, month: int, day: int)

  /** A naive `datetime`: a date and the microseconds elapsed since its midnight. */
  datatype Moment = Moment(date: Date, micros: int)

  predicate IsLeap(y: int)
  {
    y % 4 == 0 && (y % 100 != 0 || y % 400 == 0)
  }

  function DaysInMonth(y: int, m: int): (n: int)
    requires 1 <= m <= 12
    ensures 28 <= n <= 31
    ensures n == 29 <==> m == 2 && IsLeap(y)
  {
    if m == 2 then (if IsLeap(y) then 29 else 28)
    else if m == 4 || m == 6 || m == 9 || m == 11 then 30
    else 31
  }

  function DaysInYear(y: int): int
  {
    if IsLeap(y) then 366 else 365
  }

  predicate ValidDate(d: Date)
  {
    MinYear <= d.year <= MaxYear && 1 <= d.month <= 12 && 1 <= d.day <= DaysInMonth(d.year, d.month)
  }

  predicate ValidMoment(t: Moment)
  {
    ValidDate(t.date) && 0 <= t.micros < DayMicros
  }

  function Midnight(d: Date): Moment
  {
    Moment(d, 0)
  }

  /** Days in the years before `y`. */
  function DaysBeforeYear(y: int): int
    requires y >= 1
  {
    var p := y - 1;
    p * 365 + p / 4 - p / 100 + p / 400
  }

  /** Days in the months of year `y` before month `m`. */
  function DaysBeforeMonth(y: int, m: int): int
    requires 1 <= m <= 12
  {
    var common :=
      if m == 1 then 0 else if m == 2 then 31 else if m == 3 then 59
      else if m == 4 then 90 else if m == 5 then 120 else if m == 6 then 151
      else if m == 7 then 181 else if m == 8 then 212 else if m == 9 then 243
      else if m == 10 then 273 else if m == 11 then 304 else 334;
    common + (if m > 2 && IsLeap(y) then 1 else 0)
  }

  /** `date.toordinal()`. */
  function Ordinal(d: Date): int
    requires ValidDate(d)
  {
    DaysBeforeYear(d.year) + DaysBeforeMonth(d.year, d.month) + d.day
  }

  /** `date.weekday()`: Monday is 0 and Sunday is 6. */
  function Weekday(d: Date): (w: int)
    requires ValidDate(d)
    ensures 0 <= w < 7
  {
    (Ordinal(d) + 6) % 7
  }

  /** `a < b` on dates. */
  predicate DateBefore(a: Date, b: Date)
  {
    a.year < b.year
    || (a.year == b.year && (a.month < b.month || (a.month == b.month && a.day < b.day)))
  }

  /** `a < b` on naive datetimes: by date, then by time of day. */
  predicate MomentBefore(a: Moment, b: Moment)
  {
    DateBefore(a.date, b.date) || (a.date == b.date && a.micros < b.micros)
  }

  /** A year has 365 days, plus one when it is a leap year. */
  lemma YearLength(y: int)
    requires y >= 1
    ensures DaysBeforeYear(y + 1) == DaysBeforeYear(y) + DaysInYear(y)
  {
    CountStep4(y);
    CountStep100(y);
    CountStep400(y);
    DivisorsNest(y);
    var a, b, c := y % 4 == 0, y % 100 == 0, y % 400 == 0;
    assert DaysBeforeYear(y + 1) - DaysBeforeYear(y)
        == 365 + (if a then 1 else 0) - (if b then 1 else 0) + (if c then 1 else 0);
  }

  /** A multiple of 400 is one of 100, and a multiple of 100 is one of 4. */
  lemma DivisorsNest(y: int)
    ensures y % 400 == 0 ==> y % 100 == 0
    ensures y % 100 == 0 ==> y % 4 == 0
  {
    if y % 400 == 0 {
      assert y == 400 * (y / 400);
      assert y == 100 * (4 * (y / 400));
    }
    if y % 100 == 0 {
      assert y == 100 * (y / 100);
      assert y == 4 * (25 * (y / 100));
    }
  }

  /** Stepping from year `y - 1` to `y` adds one multiple of 4 exactly when `y` is one. */
  lemma CountStep4(y: int)
    ensures y / 4 == (y - 1) / 4 + (if y % 4 == 0 then 1 else 0)
  {
  }

  lemma CountStep100(y: int)
    ensures y / 100 == (y - 1) / 100 + (if y % 100 == 0 then 1 else 0)
  {
  }

  lemma CountStep400(y: int)
    ensures y / 400 == (y - 1) / 400 + (if y % 400 == 0 then 1 else 0)
  {
  }

  /** Every date of year `y` is numbered after the years before it and before the next year. */
  lemma DayOfYearBounds(d: Date)
    requires ValidDate(d)
    ensures 1 <= DaysBeforeMonth(d.year, d.month) + d.day <= DaysInYear(d.year)
  {
  }

  /** Within one year, a later month/day has a larger ordinal. */
  lemma DayOfYearMonotone(a: Date, b: Date)
    requires ValidDate(a) && ValidDate(b) && a.year == b.year && DateBefore(a, b)
    ensures DaysBeforeMonth(a.year, a.month) + a.day < DaysBeforeMonth(b.year, b.month) + b.day
  {
    if a.month < b.month {
      assert DaysBeforeMonth(a.year, a.month) + DaysInMonth(a.year, a.month)
        <= DaysBeforeMonth(b.year, b.month);
    }
  }

  /** Earlier years start earlier, by at least a full year. */
  lemma {:induction false} DaysBeforeYearMonotone(y1: int, y2: int)
    requires 1 <= y1 < y2
    ensures DaysBeforeYear(y1) + DaysInYear(y1) <= DaysBeforeYear(y2)
    decreases y2 - y1
  {
    YearLength(y1);
    if y1 + 1 < y2 {
      DaysBeforeYearMonotone(y1 + 1, y2);
    }
  }

  /** The ordinal numbers valid dates in their calendar order. */
  lemma OrdinalMonotone(a: Date, b: Date)
    requires ValidDate(a) && ValidDate(b) && DateBefore(a, b)
    ensures Ordinal(a) < Ordinal(b)
  {
    if a.year < b.year {
      DayOfYearBounds(a);
      DayOfYearBounds(b);
      DaysBeforeYearMonotone(a.year, b.year);
    } else {
      DayOfYearMonotone(a, b);
    }
  }

  /** Date order and ordinal order agree, in both directions. */
  lemma OrdinalOrder(a: Date, b: Date)
    requires ValidDate(a) && ValidDate(b)
    ensures DateBefore(a, b) <==> Ordinal(a) < Ordinal(b)
    ensures a == b <==> Ordinal(a) == Ordinal(b)
  {
    if DateBefore(a, b) {
      OrdinalMonotone(a, b);
    } else if DateBefore(b, a) {
      OrdinalMonotone(b, a);
    }
  }
}
