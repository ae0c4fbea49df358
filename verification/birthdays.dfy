/**
 * `AddressBook.get_upcoming_birthday` of `src/main.py`: for every contact
 * with a birthday, the next occurrence of its day and month that is not
 * before `now`, the whole days until it, and the weekend shift of the
 * congratulation day. The clock reading `datetime.today()` is the parameter
 * `now`.
 */
module Birthdays {
  import opened Outcomes
  import opened Calendar
  import opened Fields
  import opened Seqs
  import opened Contacts
  import opened AddressBooks

  /** `d.replace(year=y)`: the same day and month in year `y`, if the calendar has it. */
  function ReplaceYear(d: Date, y: int): (r: Result<Date, Error>)
    requires ValidDate(d)
    ensures r.Ok? <==> MinYear <= y <= MaxYear && !(d.month == 2 && d.day == 29 && !IsLeap(y))
    ensures r.Ok? ==> r.value == d.(year := y)
    ensures r.Err? ==> r.error == if MinYear <= y <= MaxYear then DayOutOfRange else YearOutOfRange(y)
  {
    CalendarDate(d.day, d.month, y)
  }

  /** `Midnight(d) < now`: the occurrence on `d` is already over at `now`. */
  predicate Passed(d: Date, now: Moment)
  {
    MomentBefore(Midnight(d), now)
  }

  /**
   * When the calendar has a next occurrence: a 29 February birthday only in
   * a leap year before that day has passed, any other birthday unless this
   * year's has passed in the calendar's last year.
   */
  predicate OccursAgain(b: Date, now: Moment)
  {
    if b.month == 2 && b.day == 29 then IsLeap(now.date.year) && !Passed(b.(year := now.date.year), now)
    else now.date.year < MaxYear || !Passed(b.(year := now.date.year), now)
  }

  /**
   * The occurrence of birthday `b` this year, or next year when this year's
   * has passed; either `replace` can fail.
   */
  function NextOccurrence(b: Date, now: Moment): (r: Result<Date, Error>)
    requires ValidDate(b) && ValidMoment(now)
    ensures r.Ok? ==> ValidDate(r.value) && r.value.month == b.month && r.value.day == b.day
    ensures r.Ok? ==> !Passed(r.value, now)
    ensures r.Ok? ==> r.value.year == now.date.year || r.value.year == now.date.year + 1
    ensures r.Ok? <==> OccursAgain(b, now)
    ensures r.Err? ==> r.error == DayOutOfRange || r.error == YearOutOfRange(now.date.year + 1)
  {
    var y := now.date.year;
    var o :- ReplaceYear(b, y);
    if Passed(o, now) then
      var later := ReplaceYear(o, y + 1);
      if later.Ok? then
        assert !DateBefore(later.value, now.date) && later.value != now.date;
        later
      else later
    else Ok(o)
  }

  /**
   * The occurrence found is the earliest date with the birthday's day and
   * month that has not passed at `now`.
   */
  lemma NextOccurrenceIsNearest(b: Date, now: Moment, e: Date)
    requires ValidDate(b) && ValidMoment(now) && NextOccurrence(b, now).Ok?
    requires ValidDate(e) && e.month == b.month && e.day == b.day && !Passed(e, now)
    ensures !DateBefore(e, NextOccurrence(b, now).value)
  {
    var o := NextOccurrence(b, now).value;
    if o.year == now.date.year + 1 {
      assert Passed(b.(year := now.date.year), now);
      assert e.year != now.date.year;
    }
  }

  /**
   * An occurrence on today's date has passed unless `now` is exactly
   * midnight, so a birthday today is found next year.
   */
  lemma BirthdayTodayRollsOver(b: Date, now: Moment)
    requires ValidDate(b) && ValidMoment(now) && NextOccurrence(b, now).Ok?
    requires b.month == now.date.month && b.day == now.date.day
    ensures NextOccurrence(b, now).value.year == if now.micros > 0 then now.date.year + 1 else now.date.year
  {
    assert b.(year := now.date.year) == now.date;
  }

  /** `(o - now).days`: whole days, rounded down, from `now` to the midnight starting `o`. */
  function DaysUntil(o: Date, now: Moment): (days: int)
    requires ValidDate(o) && ValidMoment(now)
    ensures days * DayMicros <= (Ordinal(o) - Ordinal(now.date)) * DayMicros - now.micros < (days + 1) * DayMicros
  {
    ((Ordinal(o) - Ordinal(now.date)) * DayMicros - now.micros) / DayMicros
  }

  /** The day count is the difference of the dates, less one unless `now` is exactly midnight. */
  lemma DaysUntilDateDifference(o: Date, now: Moment)
    requires ValidDate(o) && ValidMoment(now)
    ensures DaysUntil(o, now) == Ordinal(o) - Ordinal(now.date) - (if now.micros > 0 then 1 else 0)
  {
    var delta := Ordinal(o) - Ordinal(now.date);
    if now.micros > 0 {
      FloorDivision(delta - 1, DayMicros - now.micros);
      assert delta * DayMicros - now.micros == (delta - 1) * DayMicros + (DayMicros - now.micros);
    } else {
      FloorDivision(delta, 0);
    }
  }

  /** Division by a day's microseconds rounds down. */
  lemma FloorDivision(q: int, rest: int)
    requires 0 <= rest < DayMicros
    ensures (q * DayMicros + rest) / DayMicros == q
  {
  }

  /** The day count of a next occurrence is never negative. */
  lemma DaysUntilNonNegative(b: Date, now: Moment)
    requires ValidDate(b) && ValidMoment(now) && NextOccurrence(b, now).Ok?
    ensures DaysUntil(NextOccurrence(b, now).value, now) >= 0
  {
    var o := NextOccurrence(b, now).value;
    DaysUntilDateDifference(o, now);
    OrdinalOrder(o, now.date);
  }

  const LastDate := Date(MaxYear, 12, 31)

  /** The last date the calendar has is a Friday. */
  lemma LastDateIsFriday()
    ensures ValidDate(LastDate) && Ordinal(LastDate) == 3_652_059 && Weekday(LastDate) == 4
  {
  }

  /** No valid date is numbered after the last one. */
  lemma NotAfterLastDate(o: Date)
    requires ValidDate(o)
    ensures Ordinal(o) <= Ordinal(LastDate) && Weekday(LastDate) == 4
  {
    LastDateIsFriday();
    OrdinalOrder(o, LastDate);
  }

  /**
   * Day numbers `x` up to a Friday `last`: a Saturday is at least six days
   * before it and a Sunday at least five, and two days after a Saturday or
   * one after a Sunday is a Monday.
   */
  lemma WeekendShift(x: int, last: int)
    requires x <= last && (last + 6) % 7 == 4
    ensures (x + 6) % 7 == Saturday ==> x + 2 <= last && (x + 8) % 7 == 0
    ensures (x + 6) % 7 == Sunday ==> x + 1 <= last && (x + 7) % 7 == 0
  {
    var a, b := (x + 6) / 7, (last + 6) / 7;
    assert x + 6 == 7 * a + (x + 6) % 7;
    assert last + 6 == 7 * b + 4;
  }

  /**
   * The ordinal of the congratulation day: a Saturday occurrence moves on to
   * Monday, a Sunday one too, any other day stays. The last Saturday of the
   * calendar is early enough that the move never runs past its end.
   */
  function CelebrationDay(o: Date): (n: int)
    requires ValidDate(o)
    ensures Ordinal(o) <= n <= Ordinal(o) + 2
    ensures (n + 6) % 7 != Saturday && (n + 6) % 7 != Sunday
    ensures (n == Ordinal(o)) <==> Weekday(o) != Saturday && Weekday(o) != Sunday
    ensures Weekday(o) == Saturday ==> n == Ordinal(o) + 2
    ensures Weekday(o) == Sunday ==> n == Ordinal(o) + 1
    ensures n != Ordinal(o) ==> (n + 6) % 7 == Monday
    ensures n <= Ordinal(LastDate)
  {
    NotAfterLastDate(o);
    WeekendShift(Ordinal(o), Ordinal(LastDate));
    var w := Weekday(o);
    if w == Saturday then Ordinal(o) + 2
    else if w == Sunday then Ordinal(o) + 1
    else Ordinal(o)
  }

  /** Every stored birthday is a real calendar date, as a `datetime` always is. */
  predicate DatesOnly(rs: seq<Record>)
  {
    forall i :: 0 <= i < |rs| && rs[i].birthday.Some? ==> ValidDate(rs[i].birthday.value)
  }

  /** The loop gets past this record without raising. */
  predicate Settles(r: Record, now: Moment)
  {
    r.birthday.None?
    || OccursAgain(r.birthday.value, now)
  }

  /** The record is listed: it has a birthday whose next occurrence is at most `period` days away. */
  predicate Upcoming(r: Record, period: int, now: Moment)
  {
    && r.birthday.Some? && ValidDate(r.birthday.value) && ValidMoment(now)
    && var o := NextOccurrence(r.birthday.value, now);
    && o.Ok? && DaysUntil(o.value, now) <= period
  }

  function WindowTest(period: int, now: Moment): Record -> bool
  {
    r => Upcoming(r, period, now)
  }

  /** What one pass of the loop decides for record `r`: list it, skip it, or raise. */
  function Outcome(r: Record, period: int, now: Moment): Result<bool, Error>
    requires ValidMoment(now) && (r.birthday.Some? ==> ValidDate(r.birthday.value))
  {
    if r.birthday.None? then Ok(false)
    else
      var o :- NextOccurrence(r.birthday.value, now);
      Ok(DaysUntil(o, now) <= period)
  }

  /** A pass raises exactly for an unsettled record, and otherwise lists exactly the upcoming ones. */
  lemma OutcomeMeaning(r: Record, period: int, now: Moment)
    requires ValidMoment(now) && (r.birthday.Some? ==> ValidDate(r.birthday.value))
    ensures Outcome(r, period, now).Ok? <==> Settles(r, now)
    ensures Outcome(r, period, now).Ok? ==> Outcome(r, period, now).value == WindowTest(period, now)(r)
    ensures Outcome(r, period, now).Err? ==>
              r.birthday.Some? && NextOccurrence(r.birthday.value, now) == Err(Outcome(r, period, now).error)
  {
  }

  /**
   * The listing the loop builds over `rs`: the records it appends, in order,
   * or the first error raised.
   */
  function Listing(rs: seq<Record>, period: int, now: Moment): Result<seq<Record>, Error>
    requires ValidMoment(now) && DatesOnly(rs)
    decreases |rs|
  {
    if rs == [] then Ok([])
    else
      var last := rs[|rs| - 1];
      var init :- Listing(rs[..|rs| - 1], period, now);
      var listed :- Outcome(last, period, now);
      Ok(init + if listed then [last] else [])
  }

  /** The listing of one more record: the error so far, the record's error, or the record appended if listed. */
  lemma ListingStep(rs: seq<Record>, n: nat, period: int, now: Moment)
    requires ValidMoment(now) && DatesOnly(rs) && n < |rs|
    ensures DatesOnly(rs[..n]) && DatesOnly(rs[..n + 1])
    ensures Listing(rs[..n + 1], period, now) ==
              if Listing(rs[..n], period, now).Err? then Listing(rs[..n], period, now)
              else if Outcome(rs[n], period, now).Err? then Err(Outcome(rs[n], period, now).error)
              else Ok(Listing(rs[..n], period, now).value + if Outcome(rs[n], period, now).value then [rs[n]] else [])
  {
    var prefix := rs[..n + 1];
    assert prefix[..n] == rs[..n];
    assert prefix[n] == rs[n];
    assert DatesOnly(prefix);
  }

  /** Once the listing of a prefix has raised, so has the listing of the whole. */
  lemma {:induction false} ListingKeepsError(rs: seq<Record>, n: nat, period: int, now: Moment)
    requires ValidMoment(now) && DatesOnly(rs) && n <= |rs|
    requires Listing(rs[..n], period, now).Err?
    ensures Listing(rs, period, now) == Listing(rs[..n], period, now)
    decreases |rs| - n
  {
    if n < |rs| {
      var longer := rs[..n + 1];
      assert longer[..n] == rs[..n];
      assert Listing(longer, period, now) == Listing(rs[..n], period, now);
      ListingKeepsError(rs, n + 1, period, now);
    } else {
      assert rs[..n] == rs;
    }
  }

  /**
   * The listing succeeds exactly when every record settles, and then it is
   * the records of the window in book order.
   */
  lemma {:induction false} ListingIsWindow(rs: seq<Record>, period: int, now: Moment)
    requires ValidMoment(now) && DatesOnly(rs)
    ensures Listing(rs, period, now).Ok? <==> forall i :: 0 <= i < |rs| ==> Settles(rs[i], now)
    ensures Listing(rs, period, now).Ok? ==> Listing(rs, period, now).value == Filter(rs, WindowTest(period, now))
    decreases |rs|
  {
    if rs != [] {
      var init := rs[..|rs| - 1];
      var last := rs[|rs| - 1];
      assert rs == init + [last];
      assert DatesOnly(init);
      ListingIsWindow(init, period, now);
      OutcomeMeaning(last, period, now);
      FilterSnoc(init, last, WindowTest(period, now));
      forall i | 0 <= i < |init|
        ensures init[i] == rs[i]
      {
      }
    }
  }

  /**
   * A failed listing carries the error of the first record that does not
   * settle, every record before it settling.
   */
  lemma {:induction false} ListingError(rs: seq<Record>, period: int, now: Moment)
    requires ValidMoment(now) && DatesOnly(rs) && Listing(rs, period, now).Err?
    ensures exists k :: 0 <= k < |rs| && !Settles(rs[k], now)
                        && (forall j :: 0 <= j < k ==> Settles(rs[j], now))
                        && NextOccurrence(rs[k].birthday.value, now) == Err(Listing(rs, period, now).error)
    decreases |rs|
  {
    var init := rs[..|rs| - 1];
    var last := rs[|rs| - 1];
    assert DatesOnly(init);
    OutcomeMeaning(last, period, now);
    if Listing(init, period, now).Err? {
      ListingError(init, period, now);
      var k :| 0 <= k < |init| && !Settles(init[k], now)
               && (forall j :: 0 <= j < k ==> Settles(init[j], now))
               && NextOccurrence(init[k].birthday.value, now) == Err(Listing(init, period, now).error);
      assert init[k] == rs[k];
      forall j | 0 <= j < k
        ensures Settles(rs[j], now)
      {
        assert init[j] == rs[j];
      }
    } else {
      ListingIsWindow(init, period, now);
      var k := |rs| - 1;
      forall j | 0 <= j < k
        ensures Settles(rs[j], now)
      {
        assert init[j] == rs[j];
      }
    }
  }

  /**
   * `get_upcoming_birthday(period_days)`: the records, in book order, whose
   * next birthday is at most `period` days away, or the error of the first
   * birthday whose next occurrence the calendar lacks. The congratulation
   * day is computed for each listed record and then discarded, as
   * `get_upcoming_birthday` itself does.
   */
  method UpcomingBirthdays(book: AddressBook, period: int, now: Moment) returns (res: Result<seq<Record>, Error>)
    requires ValidMoment(now) && DatesOnly(book.records)
    ensures res == Listing(book.records, period, now)
  {
    var hits := [];
    for i := 0 to |book.records|
      invariant Listing(book.records[..i], period, now) == Ok(hits)
    {
      var r := book.records[i];
      ListingStep(book.records, i, period, now);
      var listed := ConsiderRecord(r, period, now);
      if listed.Err? {
        ListingKeepsError(book.records, i + 1, period, now);
        return Err(listed.error);
      }
      if listed.value {
        hits := hits + [r];
      } else {
        assert hits + [] == hits;
      }
    }
    assert book.records[..|book.records|] == book.records;
    res := Ok(hits);
  }

  /**
   * The listing in terms of the window: it succeeds exactly when every
   * birthday has a next occurrence, and then holds the upcoming records in
   * book order, each as often as in the book; otherwise it carries the error
   * of the first record without one.
   */
  lemma UpcomingBirthdaysMeaning(book: AddressBook, period: int, now: Moment)
    requires ValidMoment(now) && DatesOnly(book.records)
    ensures var res := Listing(book.records, period, now);
            && (res.Ok? <==> forall i :: 0 <= i < |book.records| ==> Settles(book.records[i], now))
            && (res.Ok? ==> res.value == Filter(book.records, WindowTest(period, now)))
            && (res.Ok? ==> forall r :: r in res.value <==> r in book.records && Upcoming(r, period, now))
            && (res.Err? ==> exists k :: 0 <= k < |book.records| && !Settles(book.records[k], now)
                                         && (forall j :: 0 <= j < k ==> Settles(book.records[j], now))
                                         && NextOccurrence(book.records[k].birthday.value, now) == Err(res.error))
  {
    ListingIsWindow(book.records, period, now);
    FilterMembers(book.records, WindowTest(period, now));
    if Listing(book.records, period, now).Err? {
      ListingError(book.records, period, now);
    }
  }

  /**
   * One pass of the loop: skip a record without a birthday, find the next
   * occurrence, count the days to it and, for a listed record, work out the
   * congratulation day, which is then dropped.
   */
  method ConsiderRecord(r: Record, period: int, now: Moment) returns (listed: Result<bool, Error>)
    requires ValidMoment(now) && (r.birthday.Some? ==> ValidDate(r.birthday.value))
    ensures listed == Outcome(r, period, now)
  {
    if r.birthday.None? {
      return Ok(false);
    }
    var next := NextOccurrence(r.birthday.value, now);
    if next.Err? {
      return Err(next.error);
    }
    var days := DaysUntil(next.value, now);
    if days <= period {
      var congratulation := CelebrationDay(next.value);
      return Ok(true);
    }
    return Ok(false);
  }

  /**
   * The window in terms of dates: a record is listed exactly when the date
   * difference to its next birthday, less one unless `now` is exactly
   * midnight, is at most `period`; that count is never negative.
   */
  lemma UpcomingMeaning(r: Record, period: int, now: Moment)
    requires ValidMoment(now) && r.birthday.Some? && ValidDate(r.birthday.value)
    requires NextOccurrence(r.birthday.value, now).Ok?
    ensures var o := NextOccurrence(r.birthday.value, now).value;
            var days := Ordinal(o) - Ordinal(now.date) - (if now.micros > 0 then 1 else 0);
            days >= 0 && (Upcoming(r, period, now) <==> days <= period)
  {
    var o := NextOccurrence(r.birthday.value, now).value;
    DaysUntilDateDifference(o, now);
    DaysUntilNonNegative(r.birthday.value, now);
  }

  /**
   * A 29 February birthday makes the whole listing fail in a year without
   * that day: on 1 January 2025 the first `replace` already raises.
   */
  lemma LeapDayBirthdayFails()
    ensures var book := AddressBook([Record("Ann", [], Some(Date(2000, 2, 29)))]);
            var now := Moment(Date(2025, 1, 1), 0);
            NextOccurrence(Date(2000, 2, 29), now) == Err(DayOutOfRange)
            && !Settles(book.records[0], now)
  {
  }

  /**
   * The weekend shift does not decide the listing: on Thursday 30 May 2024
   * at midnight, a birthday on Saturday 1 June is two days away and listed
   * for a two-day window, although its congratulation day, Monday 3 June,
   * lies four days away.
   */
  lemma WeekendShiftOutsideWindow()
    ensures var now := Moment(Date(2024, 5, 30), 0);
            var r := Record("Ann", [], Some(Date(1990, 6, 1)));
            var o := NextOccurrence(Date(1990, 6, 1), now);
            && o == Ok(Date(2024, 6, 1)) && Weekday(o.value) == Saturday
            && Upcoming(r, 2, now)
            && CelebrationDay(o.value) - Ordinal(now.date) == 4
  {
    var now := Moment(Date(2024, 5, 30), 0);
    var o := Date(2024, 6, 1);
    assert NextOccurrence(Date(1990, 6, 1), now) == Ok(o);
    assert Ordinal(now.date) == 739_036;
    assert Ordinal(o) == 739_038;
    assert Weekday(o) == Saturday;
    DaysUntilDateDifference(o, now);
  }
}
